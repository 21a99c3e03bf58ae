/** A canonical text for AIQL conditions: one layout among the many that the grammar
    admits. */
module AiqlPrinter {
  import opened Outcomes
  import opened AiqlParser
  import opened AiqlGrammar

  function OpOf(c: Condition): Op
    requires !c.And? && !c.Or?
  {
    match c
    case Equals(_, _) => OpEquals
    case Contains(_, _) => OpContains
    case NotContains(_, _) => OpNotContains
  }

  /** One blank in every gap, and parentheses only where the tree needs them: AND binds
      tighter than OR. A chain without operands has no text. */
  function Canonical(c: Condition): Doc
    decreases c, 0
  {
    match c
    case And(conds) =>
      if |conds| == 0 then Prim("", "", OpEquals, "", "") else Ands(Operand("AND", conds[0]), Links("AND", conds[1..]))
    case Or(conds) =>
      if |conds| == 0 then Prim("", "", OpEquals, "", "") else Ors(Operand("OR", conds[0]), Links("OR", conds[1..]))
    case _ => Prim(c.field, " ", OpOf(c), " ", c.value)
  }

  function Operand(word: string, c: Condition): Doc
    decreases c, 1
  {
    if c.Or? || (c.And? && word == "AND") then Paren("", Canonical(c), "") else Canonical(c)
  }

  function Links(word: string, cs: seq<Condition>): seq<Link>
    decreases cs, 0
  {
    if |cs| == 0 then [] else [Link(" ", " ", Operand(word, cs[0]))] + Links(word, cs[1..])
  }

  function Print(c: Condition): string {
    Write(Canonical(c), "")
  }

  lemma {:induction false} CanonicalIsLayout(alnum: char -> bool, c: Condition)
    requires WellFormed(alnum, c)
    ensures Legal(alnum, Canonical(c)) && Meaning(Canonical(c)) == c
    decreases c, 0
  {
    match c {
      case And(conds) =>
        OperandIsLayout(alnum, "AND", conds[0]);
        LinksAreLayout(alnum, "AND", conds[1..]);
        assert [conds[0]] + conds[1..] == conds;
      case Or(conds) =>
        OperandIsLayout(alnum, "OR", conds[0]);
        LinksAreLayout(alnum, "OR", conds[1..]);
        assert [conds[0]] + conds[1..] == conds;
      case _ =>
    }
  }

  lemma {:induction false} OperandIsLayout(alnum: char -> bool, word: string, c: Condition)
    requires WellFormed(alnum, c) && (word == "AND" || word == "OR")
    ensures Legal(alnum, Operand(word, c)) && Fits(word, Operand(word, c)) && Meaning(Operand(word, c)) == c
    decreases c, 1
  {
    CanonicalIsLayout(alnum, c);
  }

  lemma {:induction false} LinksAreLayout(alnum: char -> bool, word: string, cs: seq<Condition>)
    requires AllWellFormed(alnum, cs) && (word == "AND" || word == "OR")
    ensures AllLegal(alnum, word, Links(word, cs)) && Meanings(Links(word, cs)) == cs
    decreases cs, 0
  {
    if |cs| > 0 {
      OperandIsLayout(alnum, word, cs[0]);
      LinksAreLayout(alnum, word, cs[1..]);
      assert Links(word, cs)[1..] == Links(word, cs[1..]);
    }
  }

  /** The parser inverts the printer on every well-formed tree. */
  lemma ParseInvertsPrint(alnum: char -> bool, c: Condition)
    requires Lexical(alnum) && WellFormed(alnum, c)
    ensures ParseDsl(alnum, Print(c)) == Some(c)
  {
    CanonicalIsLayout(alnum, c);
    assert "" + Print(c) == Print(c);
    LayoutTrip(alnum, "", Canonical(c));
  }

  /** So the well-formed trees are exactly the ones that some text denotes. */
  lemma Expressible(alnum: char -> bool, c: Condition)
    requires Lexical(alnum)
    ensures WellFormed(alnum, c) <==> exists dsl :: ParseDsl(alnum, dsl) == Some(c)
  {
    if WellFormed(alnum, c) {
      ParseInvertsPrint(alnum, c);
    }
  }

  /** And different trees have different texts. */
  lemma PrintInjective(alnum: char -> bool, c: Condition, d: Condition)
    requires Lexical(alnum) && WellFormed(alnum, c) && WellFormed(alnum, d)
    requires Print(c) == Print(d)
    ensures c == d
  {
    ParseInvertsPrint(alnum, c);
    ParseInvertsPrint(alnum, d);
  }

  lemma WriteTight(d: Doc, rest: string)
    requires d.Prim? && d.gap == "" && d.space == ""
    ensures Write(d, rest) == d.field + (OpText(d.op) + (['"'] + (d.value + (['"'] + rest))))
  {
    var quoted := ['"'] + (d.value + (['"'] + rest));
    assert "" + quoted == quoted;
    assert "" + (OpText(d.op) + quoted) == OpText(d.op) + quoted;
  }

  /** For example, blanks are not needed around "==", nor does a pair of parentheses
      matter. */
  lemma TightAndWrapped(alnum: char -> bool, field: string, value: string)
    requires Lexical(alnum) && FieldText(alnum, field) && '"' !in value
    ensures ParseDsl(alnum, field + ("==" + (['"'] + (value + ['"'])))) == Some(Equals(field, value))
    ensures ParseDsl(alnum, "(" + (field + ("==" + (['"'] + (value + (['"'] + ")")))))) == Some(Equals(field, value))
  {
    var tight := Prim(field, "", OpEquals, "", value);
    LayoutTrip(alnum, "", tight);
    WriteTight(tight, "");
    assert ['"'] + "" == ['"'];
    assert "" + Write(tight, "") == Write(tight, "");
    var wrapped := Paren("", tight, "");
    LayoutTrip(alnum, "", wrapped);
    var end := "" + (")" + "");
    assert end == ")";
    WriteTight(tight, end);
    var inner := Write(tight, end);
    assert "" + inner == inner;
    assert "" + Write(wrapped, "") == "(" + inner;
  }
}
