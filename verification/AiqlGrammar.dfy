/** The AIQL grammar with its layout, and the proof that the parser accepts exactly it. */
module AiqlGrammar {
  import opened Outcomes
  import opened AiqlParser

  /** A condition as it is laid out: every gap of blanks, every pair of parentheses. */
  datatype Doc =
    | Prim(field: string, gap: string, op: Op, space: string, value: string)
    | Paren(open: string, inner: Doc, close: string)
    | Ands(first: Doc, more: seq<Link>)
    | Ors(first: Doc, more: seq<Link>)

  /** A further operand: the gaps around the connective, and the operand. */
  datatype Link = Link(before: string, after: string, doc: Doc)

  ghost predicate Blank(s: string) {
    forall i :: 0 <= i < |s| ==> s[i] == ' ' || s[i] == '\t'
  }

  // ---- text and meaning ----

  /** The text of a document in front of more text. */
  function Write(d: Doc, rest: string): string
    decreases d, 0
  {
    match d
    case Prim(field, gap, op, space, value) =>
      field + (gap + (OpText(op) + (space + (['"'] + (value + (['"'] + rest))))))
    case Paren(open, inner, close) => "(" + (open + Write(inner, close + (")" + rest)))
    case Ands(first, more) => Write(first, WriteLinks("AND", more, rest))
    case Ors(first, more) => Write(first, WriteLinks("OR", more, rest))
  }

  function WriteLinks(word: string, links: seq<Link>, rest: string): string
    decreases links, 0
  {
    if |links| == 0 then rest
    else WriteLink(word, links[0], WriteLinks(word, links[1..], rest))
  }

  function WriteLink(word: string, l: Link, rest: string): string
    decreases l, 0
  {
    l.before + (word + (l.after + Write(l.doc, rest)))
  }

  /** The tree that it denotes: parentheses and blanks leave no trace. */
  function Meaning(d: Doc): Condition
    decreases d, 0
  {
    match d
    case Prim(field, _, op, _, value) => Primitive(op, field, value)
    case Paren(_, inner, _) => Meaning(inner)
    case Ands(first, more) => And([Meaning(first)] + Meanings(more))
    case Ors(first, more) => Or([Meaning(first)] + Meanings(more))
  }

  function Meanings(links: seq<Link>): (cs: seq<Condition>)
    ensures |cs| == |links|
    decreases links, 0
  {
    if |links| == 0 then [] else [Meaning(links[0].doc)] + Meanings(links[1..])
  }

  // ---- the grammar ----

  /** Operands of AND are primitives and parentheses, operands of OR also AND chains. */
  predicate Fits(word: string, d: Doc) {
    if word == "AND" then d.Prim? || d.Paren? else !d.Ors?
  }

  /** Gaps hold blanks only and may be empty, but for one case: a word does not follow a
      field directly. */
  ghost predicate Legal(alnum: char -> bool, d: Doc)
    decreases d, 0
  {
    match d
    case Prim(field, gap, op, space, value) =>
      && FieldText(alnum, field) && Blank(gap) && Blank(space) && '"' !in value
      && (gap == "" ==> !IsFieldChar(alnum, OpText(op)[0]))
    case Paren(open, inner, close) => Blank(open) && Legal(alnum, inner) && Blank(close)
    case Ands(first, more) => |more| > 0 && Fits("AND", first) && Legal(alnum, first) && AllLegal(alnum, "AND", more)
    case Ors(first, more) => |more| > 0 && Fits("OR", first) && Legal(alnum, first) && AllLegal(alnum, "OR", more)
  }

  ghost predicate LegalLink(alnum: char -> bool, word: string, l: Link)
    decreases l, 1
  {
    Blank(l.before) && Blank(l.after) && Fits(word, l.doc) && Legal(alnum, l.doc)
  }

  ghost predicate AllLegal(alnum: char -> bool, word: string, links: seq<Link>)
    decreases links, 0
  {
    |links| == 0 || (LegalLink(alnum, word, links[0]) && AllLegal(alnum, word, links[1..]))
  }

  /** The text goes on with the connective and a further operand. */
  ghost predicate GoesOn(alnum: char -> bool, word: string, s: string) {
    exists l, rest :: LegalLink(alnum, word, l) && s == WriteLink(word, l, rest)
  }

  ghost predicate Final(alnum: char -> bool, s: string) {
    !GoesOn(alnum, "AND", s) && !GoesOn(alnum, "OR", s)
  }

  ghost predicate IsText(alnum: char -> bool, s: string, lead: string, d: Doc, rest: string) {
    Blank(lead) && Legal(alnum, d) && s == lead + Write(d, rest)
  }

  /** The text starts, after blanks, with a document that denotes c; what is left does
      not go on with a further operand. */
  ghost predicate Denotes(alnum: char -> bool, s: string, c: Condition, rest: string) {
    exists lead, d :: IsText(alnum, s, lead, d, rest) && Meaning(d) == c && Final(alnum, rest)
  }

  // ---- tokens ----

  lemma LiteralFirst(word: string, rest: string)
    ensures Literal(word, word + rest) == Some(rest)
  {
    assert (word + rest)[|word|..] == rest;
  }

  lemma LiteralMiss(word: string, s: string)
    requires |word| > 0 && (|s| == 0 || word[0] != s[0])
    ensures Literal(word, s) == None
  {
  }

  lemma LiteralRead(word: string, s: string)
    requires Literal(word, s).Some?
    ensures s == word + Literal(word, s).value
  {
  }

  /** Does not start with a blank. */
  ghost predicate Solid(s: string) {
    |s| == 0 || (s[0] != ' ' && s[0] != '\t')
  }

  lemma {:induction false} SpaceSkips(gap: string, s: string)
    requires Blank(gap) && Solid(s)
    ensures Space0(gap + s) == s
  {
    if |gap| == 0 {
      assert gap + s == s;
    } else {
      SpaceSkips(gap[1..], s);
      assert (gap + s)[1..] == gap[1..] + s;
    }
  }

  lemma {:induction false} SpaceRead(s: string) returns (gap: string)
    ensures Blank(gap) && s == gap + Space0(s) && Solid(Space0(s))
  {
    if |s| > 0 && (s[0] == ' ' || s[0] == '\t') {
      var more := SpaceRead(s[1..]);
      gap := [s[0]] + more;
      assert s == [s[0]] + s[1..];
    } else {
      gap := "";
    }
  }

  lemma {:induction false} SpanExactly(p: char -> bool, word: string, rest: string)
    requires forall i :: 0 <= i < |word| ==> p(word[i])
    requires |rest| > 0 ==> !p(rest[0])
    ensures Span(p, word + rest) == |word|
  {
    if |word| == 0 {
      assert word + rest == rest;
    } else {
      SpanExactly(p, word[1..], rest);
      assert (word + rest)[1..] == word[1..] + rest;
    }
  }

  lemma FieldFirst(alnum: char -> bool, field: string, rest: string)
    requires FieldText(alnum, field) && (|rest| > 0 ==> !IsFieldChar(alnum, rest[0]))
    ensures ParseField(alnum, field + rest) == Some((field, rest))
  {
    SpanExactly(c => IsFieldChar(alnum, c), field, rest);
    assert (field + rest)[..|field|] == field && (field + rest)[|field|..] == rest;
  }

  lemma StringFirst(value: string, rest: string)
    requires '"' !in value
    ensures ParseString(['"'] + (value + (['"'] + rest))) == Some((value, rest))
  {
    var tail := ['"'] + rest;
    var s := ['"'] + (value + tail);
    assert s[1..] == value + tail;
    SpanExactly(c => c != '"', value, tail);
    assert (value + tail)[..|value|] == value && (value + tail)[|value| + 1..] == rest;
  }

  lemma StringRead(s: string)
    requires ParseString(s).Some?
    ensures var (value, rest) := ParseString(s).value;
            '"' !in value && s == ['"'] + (value + (['"'] + rest))
  {
    var body := s[1..];
    var n := Span(c => c != '"', body);
    assert body == body[..n] + (['"'] + body[n + 1..]);
    assert s == ['"'] + body;
  }

  lemma OpFirst(op: Op, rest: string)
    ensures ParseOp(OpText(op) + rest) == Some((op, rest))
  {
    var s := OpText(op) + rest;
    LiteralFirst(OpText(op), rest);
    match op {
      case OpEquals =>
      case OpContains =>
        LiteralMiss("==", s);
      case OpNotContains =>
        LiteralMiss("==", s);
        LiteralMiss("contains", s);
    }
  }

  lemma OpRead(s: string)
    requires ParseOp(s).Some?
    ensures var (op, rest) := ParseOp(s).value;
            s == OpText(op) + rest
  {
    LiteralRead(OpText(ParseOp(s).value.0), s);
  }

  // ---- what the parser accepts is in the grammar ----

  lemma PrimSound(alnum: char -> bool, s: string) returns (d: Doc)
    requires ParsePrimitive(alnum, s).Some?
    ensures var (c, rest) := ParsePrimitive(alnum, s).value;
            d.Prim? && Legal(alnum, d) && Meaning(d) == c && s == Write(d, rest)
  {
    var (field, s1) := ParseField(alnum, s).value;
    var (op, s2) := ParseOp(Space0(s1)).value;
    var (value, rest) := ParseString(Space0(s2)).value;
    assert s == field + s1;
    var gap := SpaceRead(s1);
    OpRead(Space0(s1));
    var space := SpaceRead(s2);
    StringRead(Space0(s2));
    d := Prim(field, gap, op, space, value);
    if gap == "" {
      assert s1 == OpText(op) + s2;
      assert s1[0] == OpText(op)[0];
    }
  }

  lemma {:induction false} UnitSound(alnum: char -> bool, s: string) returns (d: Doc)
    requires ParseUnit(alnum, s).Some?
    ensures var (c, rest) := ParseUnit(alnum, s).value;
            Fits("AND", d) && Legal(alnum, d) && Meaning(d) == c && s == Write(d, rest)
    decreases |s|, 1
  {
    if ParseParen(alnum, s).Some? {
      d := ParenSound(alnum, s);
    } else {
      d := PrimSound(alnum, s);
    }
  }

  lemma {:induction false} ParenSound(alnum: char -> bool, s: string) returns (d: Doc)
    requires ParseParen(alnum, s).Some?
    ensures var (c, rest) := ParseParen(alnum, s).value;
            d.Paren? && Legal(alnum, d) && Meaning(d) == c && s == Write(d, rest)
    decreases |s|, 0
  {
    var s1 := Literal("(", s).value;
    LiteralRead("(", s);
    var (c, s2) := ParseCondition(alnum, Space0(s1)).value;
    var rest := Literal(")", Space0(s2)).value;
    LiteralRead(")", Space0(s2));
    var gap := SpaceRead(s1);
    var lead, inner := ConditionSound(alnum, Space0(s1));
    var close := SpaceRead(s2);
    d := Paren(gap + lead, inner, close);
    assert gap + (lead + Write(inner, s2)) == (gap + lead) + Write(inner, s2);
  }

  lemma ConsLink(alnum: char -> bool, word: string, l: Link, others: seq<Link>, acc: seq<Condition>, rest: string)
    requires LegalLink(alnum, word, l) && AllLegal(alnum, word, others)
    ensures AllLegal(alnum, word, [l] + others)
    ensures acc + Meanings([l] + others) == acc + [Meaning(l.doc)] + Meanings(others)
    ensures WriteLinks(word, [l] + others, rest) == WriteLink(word, l, WriteLinks(word, others, rest))
  {
    assert ([l] + others)[1..] == others;
  }

  lemma {:induction false} MoreAndSound(alnum: char -> bool, acc: seq<Condition>, s: string) returns (links: seq<Link>)
    requires |acc| > 0 && AllWellFormed(alnum, acc)
    ensures var (cs, rest) := MoreAnd(alnum, acc, s);
            AllLegal(alnum, "AND", links) && cs == acc + Meanings(links) && s == WriteLinks("AND", links, rest)
    decreases |s|, 0
  {
    links := [];
    assert acc + [] == acc;
    if Literal("AND", Space0(s)).Some? {
      var s1 := Literal("AND", Space0(s)).value;
      if ParseUnit(alnum, Space0(s1)).Some? {
        var (c, rest) := ParseUnit(alnum, Space0(s1)).value;
        var l := LinkSound("AND", s);
        var d := UnitSound(alnum, Space0(s1));
        var others := MoreAndSound(alnum, acc + [c], rest);
        ConsLink(alnum, "AND", Link(l.0, l.1, d), others, acc, MoreAnd(alnum, acc + [c], rest).1);
        links := [Link(l.0, l.1, d)] + others;
      }
    }
  }

  /** The gaps around a connective. */
  lemma LinkSound(word: string, s: string) returns (gaps: (string, string))
    requires Literal(word, Space0(s)).Some?
    ensures var s1 := Literal(word, Space0(s)).value;
            Blank(gaps.0) && Blank(gaps.1) && s == gaps.0 + (word + (gaps.1 + Space0(s1)))
  {
    var s1 := Literal(word, Space0(s)).value;
    LiteralRead(word, Space0(s));
    var before := SpaceRead(s);
    var after := SpaceRead(s1);
    gaps := (before, after);
  }

  lemma {:induction false} AndSound(alnum: char -> bool, s: string) returns (d: Doc)
    requires ParseAnd(alnum, s).Some?
    ensures var (c, rest) := ParseAnd(alnum, s).value;
            Fits("OR", d) && Legal(alnum, d) && Meaning(d) == c && s == Write(d, rest)
    decreases |s|, 2
  {
    var (first, s1) := ParseUnit(alnum, s).value;
    d := UnitSound(alnum, s);
    var links := MoreAndSound(alnum, [first], s1);
    if |links| > 0 {
      d := Ands(d, links);
    }
  }

  lemma {:induction false} MoreOrSound(alnum: char -> bool, acc: seq<Condition>, s: string) returns (links: seq<Link>)
    requires |acc| > 0 && AllWellFormed(alnum, acc)
    ensures var (cs, rest) := MoreOr(alnum, acc, s);
            AllLegal(alnum, "OR", links) && cs == acc + Meanings(links) && s == WriteLinks("OR", links, rest)
    decreases |s|, 0
  {
    links := [];
    assert acc + [] == acc;
    if Literal("OR", Space0(s)).Some? {
      var s1 := Literal("OR", Space0(s)).value;
      if ParseAnd(alnum, Space0(s1)).Some? {
        var (c, rest) := ParseAnd(alnum, Space0(s1)).value;
        var l := LinkSound("OR", s);
        var d := AndSound(alnum, Space0(s1));
        var others := MoreOrSound(alnum, acc + [c], rest);
        ConsLink(alnum, "OR", Link(l.0, l.1, d), others, acc, MoreOr(alnum, acc + [c], rest).1);
        links := [Link(l.0, l.1, d)] + others;
      }
    }
  }

  lemma {:induction false} ConditionSound(alnum: char -> bool, s: string) returns (lead: string, d: Doc)
    requires ParseCondition(alnum, s).Some?
    ensures var (c, rest) := ParseCondition(alnum, s).value;
            Blank(lead) && Legal(alnum, d) && Meaning(d) == c && s == lead + Write(d, rest)
    decreases |s|, 3
  {
    lead := SpaceRead(s);
    var (first, s1) := ParseAnd(alnum, Space0(s)).value;
    d := AndSound(alnum, Space0(s));
    var links := MoreOrSound(alnum, [first], s1);
    if |links| > 0 {
      d := Ors(d, links);
    }
  }

  // ---- what is in the grammar is accepted ----

  lemma {:induction false} WriteSolid(alnum: char -> bool, d: Doc, rest: string)
    requires Lexical(alnum) && Legal(alnum, d)
    ensures Solid(Write(d, rest))
  {
    match d {
      case Prim(field, gap, op, space, value) => assert Write(d, rest)[0] == field[0];
      case Paren(_, _, _) =>
      case Ands(first, more) => WriteSolid(alnum, first, WriteLinks("AND", more, rest));
      case Ors(first, more) => WriteSolid(alnum, first, WriteLinks("OR", more, rest));
    }
  }

  /** After a field comes no field character. */
  lemma GapEnds(alnum: char -> bool, gap: string, op: Op, t: string)
    requires Lexical(alnum) && Blank(gap) && (gap == "" ==> !IsFieldChar(alnum, OpText(op)[0]))
    ensures !IsFieldChar(alnum, (gap + (OpText(op) + t))[0])
  {
    if gap == "" {
      assert gap + (OpText(op) + t) == OpText(op) + t;
    }
  }

  lemma PrimTrip(alnum: char -> bool, d: Doc, rest: string)
    requires Lexical(alnum) && d.Prim? && Legal(alnum, d)
    ensures ParsePrimitive(alnum, Write(d, rest)) == Some((Meaning(d), rest))
  {
    var quoted := ['"'] + (d.value + (['"'] + rest));
    var s2 := d.space + quoted;
    var s1 := OpText(d.op) + s2;
    GapEnds(alnum, d.gap, d.op, s2);
    FieldFirst(alnum, d.field, d.gap + s1);
    SpaceSkips(d.gap, s1);
    OpFirst(d.op, s2);
    SpaceSkips(d.space, quoted);
    StringFirst(d.value, rest);
  }

  lemma {:induction false} UnitTrip(alnum: char -> bool, d: Doc, rest: string)
    requires Lexical(alnum) && Fits("AND", d) && Legal(alnum, d)
    ensures ParseUnit(alnum, Write(d, rest)) == Some((Meaning(d), rest))
    decreases d, 1
  {
    if d.Paren? {
      ParenTrip(alnum, d, rest);
    } else {
      assert Write(d, rest)[0] == d.field[0] != '(';
      LiteralMiss("(", Write(d, rest));
      PrimTrip(alnum, d, rest);
    }
  }

  lemma {:induction false} ParenTrip(alnum: char -> bool, d: Doc, rest: string)
    requires Lexical(alnum) && d.Paren? && Legal(alnum, d)
    ensures ParseParen(alnum, Write(d, rest)) == Some((Meaning(d), rest))
    decreases d, 0
  {
    var after := d.close + (")" + rest);
    var inner := Write(d.inner, after);
    LiteralFirst("(", d.open + inner);
    WriteSolid(alnum, d.inner, after);
    SpaceSkips(d.open, inner);
    ParenEnds(alnum, "AND", d.close, rest);
    ParenEnds(alnum, "OR", d.close, rest);
    assert "" + inner == inner;
    ConditionTrip(alnum, "", d.inner, after);
    SpaceSkips(d.close, ")" + rest);
    LiteralFirst(")", rest);
  }

  /** What stands behind a gap is found behind it. */
  lemma WordAt(gap: string, word: string, t: string)
    requires Blank(gap) && |word| > 0 && Solid(word)
    ensures Space0(gap + (word + t)) == word + t
  {
    SpaceSkips(gap, word + t);
  }

  lemma LinkAt(word: string, l: Link, rest: string)
    requires Blank(l.before) && |word| > 0 && Solid(word)
    ensures Space0(WriteLink(word, l, rest)) == word + (l.after + Write(l.doc, rest))
  {
    WordAt(l.before, word, l.after + Write(l.doc, rest));
  }

  lemma ParenEnds(alnum: char -> bool, word: string, close: string, rest: string)
    requires Blank(close) && (word == "AND" || word == "OR")
    ensures !GoesOn(alnum, word, close + (")" + rest))
  {
    var s := close + (")" + rest);
    WordAt(close, ")", rest);
    forall l, r | LegalLink(alnum, word, l)
      ensures s != WriteLink(word, l, r)
    {
      LinkAt(word, l, r);
      assert (word + (l.after + Write(l.doc, r)))[0] == word[0];
    }
  }

  /** An OR is not an AND. */
  lemma OrEndsAnd(alnum: char -> bool, links: seq<Link>, rest: string)
    requires AllLegal(alnum, "OR", links) && !GoesOn(alnum, "AND", rest)
    ensures !GoesOn(alnum, "AND", WriteLinks("OR", links, rest))
  {
    if |links| > 0 {
      var t := links[0].after + Write(links[0].doc, WriteLinks("OR", links[1..], rest));
      WordAt(links[0].before, "OR", t);
      forall l, r | LegalLink(alnum, "AND", l)
        ensures WriteLinks("OR", links, rest) != WriteLink("AND", l, r)
      {
        LinkAt("AND", l, r);
        assert ("AND" + (l.after + Write(l.doc, r)))[0] == 'A' && ("OR" + t)[0] == 'O';
      }
    }
  }

  /** The parser finds the connective and an operand of it. */
  predicate AndReads(alnum: char -> bool, s: string) {
    var word := Literal("AND", Space0(s));
    word.Some? && ParseUnit(alnum, Space0(word.value)).Some?
  }

  predicate OrReads(alnum: char -> bool, s: string) {
    var word := Literal("OR", Space0(s));
    word.Some? && ParseAnd(alnum, Space0(word.value)).Some?
  }

  lemma AndReadsGoesOn(alnum: char -> bool, s: string)
    requires AndReads(alnum, s)
    ensures GoesOn(alnum, "AND", s)
  {
    var s1 := Space0(Literal("AND", Space0(s)).value);
    var gaps := LinkSound("AND", s);
    var d := UnitSound(alnum, s1);
    var l := Link(gaps.0, gaps.1, d);
    assert LegalLink(alnum, "AND", l) && s == WriteLink("AND", l, ParseUnit(alnum, s1).value.1);
  }

  lemma OrReadsGoesOn(alnum: char -> bool, s: string)
    requires OrReads(alnum, s)
    ensures GoesOn(alnum, "OR", s)
  {
    var s1 := Space0(Literal("OR", Space0(s)).value);
    var gaps := LinkSound("OR", s);
    var d := AndSound(alnum, s1);
    var l := Link(gaps.0, gaps.1, d);
    assert LegalLink(alnum, "OR", l) && s == WriteLink("OR", l, ParseAnd(alnum, s1).value.1);
  }

  /** Without a further operand the list ends. */
  lemma MoreAndStops(alnum: char -> bool, acc: seq<Condition>, s: string)
    requires |acc| > 0 && AllWellFormed(alnum, acc) && !GoesOn(alnum, "AND", s)
    ensures MoreAnd(alnum, acc, s) == (acc, s)
  {
    if AndReads(alnum, s) {
      AndReadsGoesOn(alnum, s);
    }
  }

  lemma MoreOrStops(alnum: char -> bool, acc: seq<Condition>, s: string)
    requires |acc| > 0 && AllWellFormed(alnum, acc) && !GoesOn(alnum, "OR", s)
    ensures MoreOr(alnum, acc, s) == (acc, s)
  {
    if OrReads(alnum, s) {
      OrReadsGoesOn(alnum, s);
    }
  }

  /** A connective, its gaps and the start of an operand are read off. */
  lemma LinkFirst(alnum: char -> bool, word: string, l: Link, tail: string)
    requires Lexical(alnum) && LegalLink(alnum, word, l) && |word| > 0 && Solid(word)
    ensures Literal(word, Space0(WriteLink(word, l, tail))) == Some(l.after + Write(l.doc, tail))
    ensures Space0(l.after + Write(l.doc, tail)) == Write(l.doc, tail)
  {
    WordAt(l.before, word, l.after + Write(l.doc, tail));
    LiteralFirst(word, l.after + Write(l.doc, tail));
    WriteSolid(alnum, l.doc, tail);
    SpaceSkips(l.after, Write(l.doc, tail));
  }

  lemma MoveFirst(acc: seq<Condition>, links: seq<Link>)
    requires |links| > 0
    ensures acc + Meanings(links) == (acc + [Meaning(links[0].doc)]) + Meanings(links[1..])
  {
  }

  lemma {:induction false} MoreAndTrip(alnum: char -> bool, acc: seq<Condition>, links: seq<Link>, rest: string)
    requires Lexical(alnum) && |acc| > 0 && AllWellFormed(alnum, acc)
    requires AllLegal(alnum, "AND", links) && !GoesOn(alnum, "AND", rest)
    ensures MoreAnd(alnum, acc, WriteLinks("AND", links, rest)) == (acc + Meanings(links), rest)
    decreases links, 0
  {
    if |links| == 0 {
      MoreAndStops(alnum, acc, rest);
      assert acc + [] == acc;
    } else {
      var l, tail := links[0], WriteLinks("AND", links[1..], rest);
      LinkFirst(alnum, "AND", l, tail);
      UnitTrip(alnum, l.doc, tail);
      MoreAndTrip(alnum, acc + [Meaning(l.doc)], links[1..], rest);
      MoveFirst(acc, links);
    }
  }

  lemma {:induction false} AndTrip(alnum: char -> bool, d: Doc, rest: string)
    requires Lexical(alnum) && Fits("OR", d) && Legal(alnum, d) && !GoesOn(alnum, "AND", rest)
    ensures ParseAnd(alnum, Write(d, rest)) == Some((Meaning(d), rest))
    decreases d, 2
  {
    if d.Ands? {
      UnitTrip(alnum, d.first, WriteLinks("AND", d.more, rest));
      MoreAndTrip(alnum, [Meaning(d.first)], d.more, rest);
    } else {
      UnitTrip(alnum, d, rest);
      MoreAndStops(alnum, [Meaning(d)], rest);
    }
  }

  lemma {:induction false} MoreOrTrip(alnum: char -> bool, acc: seq<Condition>, links: seq<Link>, rest: string)
    requires Lexical(alnum) && |acc| > 0 && AllWellFormed(alnum, acc)
    requires AllLegal(alnum, "OR", links) && Final(alnum, rest)
    ensures MoreOr(alnum, acc, WriteLinks("OR", links, rest)) == (acc + Meanings(links), rest)
    decreases links, 0
  {
    if |links| == 0 {
      MoreOrStops(alnum, acc, rest);
      assert acc + [] == acc;
    } else {
      var l, tail := links[0], WriteLinks("OR", links[1..], rest);
      LinkFirst(alnum, "OR", l, tail);
      OrEndsAnd(alnum, links[1..], rest);
      AndTrip(alnum, l.doc, tail);
      MoreOrTrip(alnum, acc + [Meaning(l.doc)], links[1..], rest);
      MoveFirst(acc, links);
    }
  }

  /** Every legal document, in any layout, is read back, up to where it ends. */
  lemma {:induction false} ConditionTrip(alnum: char -> bool, lead: string, d: Doc, rest: string)
    requires Lexical(alnum) && Blank(lead) && Legal(alnum, d) && Final(alnum, rest)
    ensures ParseCondition(alnum, lead + Write(d, rest)) == Some((Meaning(d), rest))
    decreases d, 3
  {
    WriteSolid(alnum, d, rest);
    SpaceSkips(lead, Write(d, rest));
    if d.Ors? {
      OrEndsAnd(alnum, d.more, rest);
      AndTrip(alnum, d.first, WriteLinks("OR", d.more, rest));
      MoreOrTrip(alnum, [Meaning(d.first)], d.more, rest);
    } else {
      AndTrip(alnum, d, rest);
      MoreOrStops(alnum, [Meaning(d)], rest);
    }
  }

  // ---- where the parser stops, nothing goes on ----

  lemma GoesOnAndReads(alnum: char -> bool, s: string)
    requires Lexical(alnum) && GoesOn(alnum, "AND", s)
    ensures AndReads(alnum, s)
  {
    var l, rest :| LegalLink(alnum, "AND", l) && s == WriteLink("AND", l, rest);
    LinkFirst(alnum, "AND", l, rest);
    UnitTrip(alnum, l.doc, rest);
  }

  lemma AndStarts(alnum: char -> bool, d: Doc, rest: string)
    requires Lexical(alnum) && Fits("OR", d) && Legal(alnum, d)
    ensures ParseAnd(alnum, Write(d, rest)).Some?
  {
    if d.Ands? {
      UnitTrip(alnum, d.first, WriteLinks("AND", d.more, rest));
    } else {
      UnitTrip(alnum, d, rest);
    }
  }

  lemma GoesOnOrReads(alnum: char -> bool, s: string)
    requires Lexical(alnum) && GoesOn(alnum, "OR", s)
    ensures OrReads(alnum, s)
  {
    var l, rest :| LegalLink(alnum, "OR", l) && s == WriteLink("OR", l, rest);
    LinkFirst(alnum, "OR", l, rest);
    AndStarts(alnum, l.doc, rest);
  }

  lemma {:induction false} MoreAndEnds(alnum: char -> bool, acc: seq<Condition>, s: string)
    requires Lexical(alnum) && |acc| > 0 && AllWellFormed(alnum, acc)
    ensures !GoesOn(alnum, "AND", MoreAnd(alnum, acc, s).1)
    decreases |s|
  {
    if AndReads(alnum, s) {
      var (c, rest) := ParseUnit(alnum, Space0(Literal("AND", Space0(s)).value)).value;
      MoreAndEnds(alnum, acc + [c], rest);
    } else if GoesOn(alnum, "AND", s) {
      GoesOnAndReads(alnum, s);
    }
  }

  lemma {:induction false} MoreOrEnds(alnum: char -> bool, acc: seq<Condition>, s: string)
    requires Lexical(alnum) && |acc| > 0 && AllWellFormed(alnum, acc) && !GoesOn(alnum, "AND", s)
    ensures Final(alnum, MoreOr(alnum, acc, s).1)
    decreases |s|
  {
    if OrReads(alnum, s) {
      var s1 := Space0(Literal("OR", Space0(s)).value);
      var (c, rest) := ParseAnd(alnum, s1).value;
      AndEnds(alnum, s1);
      MoreOrEnds(alnum, acc + [c], rest);
    } else if GoesOn(alnum, "OR", s) {
      GoesOnOrReads(alnum, s);
    }
  }

  lemma AndEnds(alnum: char -> bool, s: string)
    requires Lexical(alnum) && ParseAnd(alnum, s).Some?
    ensures !GoesOn(alnum, "AND", ParseAnd(alnum, s).value.1)
  {
    var (first, s1) := ParseUnit(alnum, s).value;
    MoreAndEnds(alnum, [first], s1);
  }

  lemma ConditionEnds(alnum: char -> bool, s: string)
    requires Lexical(alnum) && ParseCondition(alnum, s).Some?
    ensures Final(alnum, ParseCondition(alnum, s).value.1)
  {
    AndEnds(alnum, Space0(s));
    var (first, s1) := ParseAnd(alnum, Space0(s)).value;
    MoreOrEnds(alnum, [first], s1);
  }

  /** The parser reads a condition off a text, and leaves a rest, exactly when the text
      starts with a document of that meaning in front of that rest. */
  lemma ParsesIff(alnum: char -> bool, s: string, c: Condition, rest: string)
    requires Lexical(alnum)
    ensures ParseCondition(alnum, s) == Some((c, rest)) <==> Denotes(alnum, s, c, rest)
  {
    if ParseCondition(alnum, s) == Some((c, rest)) {
      var lead, d := ConditionSound(alnum, s);
      assert IsText(alnum, s, lead, d, rest);
      ConditionEnds(alnum, s);
    }
    if Denotes(alnum, s, c, rest) {
      var lead, d :| IsText(alnum, s, lead, d, rest) && Meaning(d) == c && Final(alnum, rest);
      ConditionTrip(alnum, lead, d, rest);
    }
  }

  /** And `parse_dsl` gives a tree exactly when it starts with a document of that meaning,
      an error exactly when it does not start with a document. */
  lemma DslIff(alnum: char -> bool, dsl: string)
    requires Lexical(alnum)
    ensures forall c :: ParseDsl(alnum, dsl) == Some(c) <==> exists rest :: Denotes(alnum, dsl, c, rest)
    ensures ParseDsl(alnum, dsl) == None <==> forall c, rest :: !Denotes(alnum, dsl, c, rest)
  {
    forall c, rest
      ensures ParseCondition(alnum, dsl) == Some((c, rest)) <==> Denotes(alnum, dsl, c, rest)
    {
      ParsesIff(alnum, dsl, c, rest);
    }
    if ParseCondition(alnum, dsl).Some? {
      var (c, rest) := ParseCondition(alnum, dsl).value;
      assert Denotes(alnum, dsl, c, rest);
    }
  }

  lemma NothingGoesOn(alnum: char -> bool)
    ensures Final(alnum, "")
  {
    forall word, l, rest | word == "AND" || word == "OR"
      ensures "" != WriteLink(word, l, rest)
    {
    }
  }

  /** So for every layout of a condition, the whole text denotes it. */
  lemma LayoutTrip(alnum: char -> bool, lead: string, d: Doc)
    requires Lexical(alnum) && Blank(lead) && Legal(alnum, d)
    ensures ParseDsl(alnum, lead + Write(d, "")) == Some(Meaning(d))
  {
    NothingGoesOn(alnum);
    ConditionTrip(alnum, lead, d, "");
  }

  lemma Assoc(a: string, b: string, c: string)
    ensures (a + b) + c == a + (b + c)
  {
  }

  lemma PrimAppends(d: Doc, rest: string)
    requires d.Prim?
    ensures Write(d, rest) == Write(d, "") + rest
  {
    var quote := ['"'];
    var s1 := d.value + (quote + "");
    var s2 := quote + s1;
    var s3 := d.space + s2;
    var s4 := OpText(d.op) + s3;
    assert (quote + "") + rest == quote + rest;
    Assoc(d.value, quote + "", rest);
    Assoc(quote, s1, rest);
    Assoc(d.space, s2, rest);
    Assoc(OpText(d.op), s3, rest);
    Assoc(d.gap, s4, rest);
    Assoc(d.field, d.gap + s4, rest);
  }

  lemma ParenAppends(open: string, inner: string, close: string, rest: string)
    ensures "(" + (open + (inner + (close + (")" + rest)))) == ("(" + (open + (inner + (close + (")" + ""))))) + rest
  {
    var s1 := close + (")" + "");
    assert (")" + "") + rest == ")" + rest;
    Assoc(close, ")" + "", rest);
    Assoc(inner, s1, rest);
    Assoc(open, inner + s1, rest);
    Assoc("(", open + (inner + s1), rest);
  }

  /** The text in front of more text is the text, followed by it. */
  lemma {:induction false} WriteAppends(d: Doc, rest: string)
    ensures Write(d, rest) == Write(d, "") + rest
    decreases d, 0
  {
    match d {
      case Prim(_, _, _, _, _) => PrimAppends(d, rest);
      case Paren(open, inner, close) =>
        WriteAppends(inner, close + (")" + rest));
        WriteAppends(inner, close + (")" + ""));
        ParenAppends(open, Write(inner, ""), close, rest);
      case Ands(first, more) =>
        WriteAppends(first, WriteLinks("AND", more, rest));
        WriteAppends(first, WriteLinks("AND", more, ""));
        LinksAppend("AND", more, rest);
        Assoc(Write(first, ""), WriteLinks("AND", more, ""), rest);
      case Ors(first, more) =>
        WriteAppends(first, WriteLinks("OR", more, rest));
        WriteAppends(first, WriteLinks("OR", more, ""));
        LinksAppend("OR", more, rest);
        Assoc(Write(first, ""), WriteLinks("OR", more, ""), rest);
    }
  }

  lemma {:induction false} LinksAppend(word: string, links: seq<Link>, rest: string)
    ensures WriteLinks(word, links, rest) == WriteLinks(word, links, "") + rest
    decreases links, 0
  {
    if |links| > 0 {
      var l, tail := links[0], WriteLinks(word, links[1..], "");
      LinksAppend(word, links[1..], rest);
      WriteAppends(l.doc, tail + rest);
      WriteAppends(l.doc, tail);
      Assoc(Write(l.doc, ""), tail, rest);
      Assoc(l.after, Write(l.doc, tail), rest);
      Assoc(word, l.after + Write(l.doc, tail), rest);
      Assoc(l.before, word + (l.after + Write(l.doc, tail)), rest);
    }
  }
}
