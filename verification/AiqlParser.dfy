/** The AIQL condition language: its syntax trees and the recursive-descent parser. */
module AiqlParser {
  import opened Outcomes

  datatype Condition =
    | Equals(field: string, value: string)
    | Contains(field: string, value: string)
    | NotContains(field: string, value: string)
    | And(conds: seq<Condition>)
    | Or(conds: seq<Condition>)

  /** What counts as alphanumeric: any character class that leaves out blanks, the
      opening parenthesis and the equals sign, as the Unicode class does. */
  ghost predicate Lexical(alnum: char -> bool) {
    !alnum(' ') && !alnum('\t') && !alnum('(') && !alnum('=')
  }

  predicate IsFieldChar(alnum: char -> bool, c: char) {
    alnum(c) || c == '.' || c == '_'
  }

  // ---- tokens: what is read, and the rest of the input ----

  type Parsed<T> = Option<(T, string)>

  function Space0(s: string): (rest: string)
    ensures |rest| <= |s|
    ensures |rest| > 0 ==> rest[0] != ' ' && rest[0] != '\t'
  {
    if |s| > 0 && (s[0] == ' ' || s[0] == '\t') then Space0(s[1..]) else s
  }

  function Literal(word: string, s: string): Option<string> {
    if word <= s then Some(s[|word|..]) else None
  }

  /** The number of leading characters for which the predicate holds. */
  function Span(p: char -> bool, s: string): (n: nat)
    ensures n <= |s|
    ensures forall i :: 0 <= i < n ==> p(s[i])
    ensures n < |s| ==> !p(s[n])
  {
    if |s| > 0 && p(s[0]) then 1 + Span(p, s[1..]) else 0
  }

  function ParseField(alnum: char -> bool, s: string): Parsed<string> {
    var n := Span(c => IsFieldChar(alnum, c), s);
    if n == 0 then None else Some((s[..n], s[n..]))
  }

  function ParseString(s: string): (r: Parsed<string>)
    ensures r.Some? ==> |r.value.1| < |s| && '"' !in r.value.0
  {
    if |s| == 0 || s[0] != '"' then None
    else
      var body := s[1..];
      var n := Span(c => c != '"', body);
      if n == |body| then None else Some((body[..n], body[n + 1..]))
  }

  datatype Op = OpEquals | OpContains | OpNotContains

  function OpText(op: Op): string {
    match op
    case OpEquals => "=="
    case OpContains => "contains"
    case OpNotContains => "not contains"
  }

  function ParseOp(s: string): (r: Parsed<Op>)
    ensures r.Some? ==> |r.value.1| < |s|
  {
    if Literal("==", s).Some? then Some((OpEquals, Literal("==", s).value))
    else if Literal("contains", s).Some? then Some((OpContains, Literal("contains", s).value))
    else if Literal("not contains", s).Some? then Some((OpNotContains, Literal("not contains", s).value))
    else None
  }

  function Primitive(op: Op, field: string, value: string): Condition {
    match op
    case OpEquals => Equals(field, value)
    case OpContains => Contains(field, value)
    case OpNotContains => NotContains(field, value)
  }

  function ParsePrimitive(alnum: char -> bool, s: string): (r: Parsed<Condition>)
    ensures r.Some? ==> |r.value.1| < |s| && WellFormed(alnum, r.value.0)
  {
    match ParseField(alnum, s)
    case None => None
    case Some((field, s1)) =>
      match ParseOp(Space0(s1))
      case None => None
      case Some((op, s2)) =>
        match ParseString(Space0(s2))
        case None => None
        case Some((value, rest)) => Some((Primitive(op, field, value), rest))
  }

  // ---- trees the language can express ----

  ghost predicate FieldText(alnum: char -> bool, field: string) {
    |field| > 0 && forall i :: 0 <= i < |field| ==> IsFieldChar(alnum, field[i])
  }

  /** Fields use the field alphabet, values hold no quote, And and Or have at least
      two operands. */
  ghost predicate WellFormed(alnum: char -> bool, c: Condition) {
    match c
    case And(conds) => |conds| >= 2 && forall i :: 0 <= i < |conds| ==> WellFormed(alnum, conds[i])
    case Or(conds) => |conds| >= 2 && forall i :: 0 <= i < |conds| ==> WellFormed(alnum, conds[i])
    case _ => FieldText(alnum, c.field) && '"' !in c.value
  }

  ghost predicate AllWellFormed(alnum: char -> bool, cs: seq<Condition>) {
    forall i :: 0 <= i < |cs| ==> WellFormed(alnum, cs[i])
  }

  // ---- the grammar ----

  function ParseCondition(alnum: char -> bool, s: string): (r: Parsed<Condition>)
    ensures r.Some? ==> |r.value.1| < |s| && WellFormed(alnum, r.value.0)
    decreases |s|, 3
  {
    match ParseAnd(alnum, Space0(s))
    case None => None
    case Some((first, s1)) =>
      var (conds, rest) := MoreOr(alnum, [first], s1);
      Some((if |conds| == 1 then conds[0] else Or(conds), rest))
  }

  /** `separated(1.., .., (space0, "OR", space0))` after its first element: a
      separator that is not followed by an element is given back. */
  function MoreOr(alnum: char -> bool, acc: seq<Condition>, s: string): (r: (seq<Condition>, string))
    requires |acc| > 0 && AllWellFormed(alnum, acc)
    ensures |r.1| <= |s| && |r.0| > 0 && AllWellFormed(alnum, r.0)
    decreases |s|, 0
  {
    match Literal("OR", Space0(s))
    case None => (acc, s)
    case Some(s1) =>
      match ParseAnd(alnum, Space0(s1))
      case None => (acc, s)
      case Some((c, rest)) => MoreOr(alnum, acc + [c], rest)
  }

  function ParseAnd(alnum: char -> bool, s: string): (r: Parsed<Condition>)
    ensures r.Some? ==> |r.value.1| < |s| && WellFormed(alnum, r.value.0)
    decreases |s|, 2
  {
    match ParseUnit(alnum, s)
    case None => None
    case Some((first, s1)) =>
      var (conds, rest) := MoreAnd(alnum, [first], s1);
      Some((if |conds| == 1 then conds[0] else And(conds), rest))
  }

  function MoreAnd(alnum: char -> bool, acc: seq<Condition>, s: string): (r: (seq<Condition>, string))
    requires |acc| > 0 && AllWellFormed(alnum, acc)
    ensures |r.1| <= |s| && |r.0| > 0 && AllWellFormed(alnum, r.0)
    decreases |s|, 0
  {
    match Literal("AND", Space0(s))
    case None => (acc, s)
    case Some(s1) =>
      match ParseUnit(alnum, Space0(s1))
      case None => (acc, s)
      case Some((c, rest)) => MoreAnd(alnum, acc + [c], rest)
  }

  /** A parenthesised condition, or failing that a primitive. */
  function ParseUnit(alnum: char -> bool, s: string): (r: Parsed<Condition>)
    ensures r.Some? ==> |r.value.1| < |s| && WellFormed(alnum, r.value.0)
    decreases |s|, 1
  {
    match ParseParen(alnum, s)
    case Some(r) => Some(r)
    case None => ParsePrimitive(alnum, s)
  }

  function ParseParen(alnum: char -> bool, s: string): (r: Parsed<Condition>)
    ensures r.Some? ==> |r.value.1| < |s| && WellFormed(alnum, r.value.0)
    decreases |s|, 0
  {
    match Literal("(", s)
    case None => None
    case Some(s1) =>
      match ParseCondition(alnum, Space0(s1))
      case None => None
      case Some((c, s2)) =>
        match Literal(")", Space0(s2))
        case None => None
        case Some(rest) => Some((c, rest))
  }

  /** `parse_dsl`: what follows the condition is ignored. */
  function ParseDsl(alnum: char -> bool, dsl: string): (r: Option<Condition>)
    ensures r.Some? ==> WellFormed(alnum, r.value)
  {
    match ParseCondition(alnum, dsl)
    case None => None
    case Some((c, _)) => Some(c)
  }
}
