/** The recursive-descent parser for SPDX license expressions. */
module LicenseParser {
  import opened Wrappers
  import opened LicenseText

  datatype Expression =
    | License(name: string)
    | And(items: seq<Expression>)
    | Or(items: seq<Expression>)

  datatype ParseError = Unreadable | Unbalanced | NoException | Incomplete

  type Parsing<T> = Result<T, ParseError>

  function Lower(c: char): char {
    if 'A' <= c <= 'Z' then (c as int - 'A' as int + 'a' as int) as char else c
  }

  predicate SameIgnoringCase(a: string, b: string) {
    |a| == |b| && forall i :: 0 <= i < |a| ==> Lower(a[i]) == Lower(b[i])
  }

  /** The token at `position` is the keyword, in any letter case. */
  predicate Keyword(tokens: seq<string>, position: nat, word: string) {
    position < |tokens| && SameIgnoringCase(tokens[position], word)
  }

  // ---------------------------------------------------------------- the grammar

  type Parsed = Parsing<(Expression, nat)>
  type ParsedList = Parsing<(seq<Expression>, nat)>

  /** The word an operator is spelled with. */
  datatype Operator = Conjunction | Disjunction

  function Word(op: Operator): string {
    if op.Conjunction? then "AND" else "OR"
  }

  function Combine(op: Operator, items: seq<Expression>): Expression {
    if |items| == 1 then items[0] else if op.Conjunction? then And(items) else Or(items)
  }

  function Level(op: Operator): nat {
    if op.Conjunction? then 1 else 3
  }

  /** One or more operands with the operator between them, from `position` on, with the position
      after them. */
  function Operands(tokens: seq<string>, position: nat, op: Operator): (r: ParsedList)
    ensures r.Ok? ==> position < r.value.1 <= |tokens| && r.value.0 != []
    decreases |tokens| - position, Level(op)
  {
    match (if op.Conjunction? then Primary(tokens, position) else Chain(tokens, position, Conjunction))
    case Err(e) => Err(e)
    case Ok(first) =>
      if Keyword(tokens, first.1, Word(op)) then
        match Operands(tokens, first.1 + 1, op)
        case Err(e) => Err(e)
        case Ok(rest) => Ok(([first.0] + rest.0, rest.1))
      else Ok(([first.0], first.1))
  }

  function Chain(tokens: seq<string>, position: nat, op: Operator): (r: Parsed)
    ensures r.Ok? ==> position < r.value.1 <= |tokens|
    decreases |tokens| - position, Level(op) + 1
  {
    match Operands(tokens, position, op)
    case Err(e) => Err(e)
    case Ok(list) => Ok((Combine(op, list.0), list.1))
  }

  function Primary(tokens: seq<string>, position: nat): (r: Parsed)
    ensures r.Ok? ==> position < r.value.1 <= |tokens|
    decreases |tokens| - position, 0
  {
    if position >= |tokens| then Err(Incomplete)
    else if tokens[position] == "(" then
      match Chain(tokens, position + 1, Disjunction)
      case Err(e) => Err(e)
      case Ok(inner) =>
        if inner.1 < |tokens| && tokens[inner.1] == ")" then Ok((inner.0, inner.1 + 1)) else Err(Unbalanced)
    else if tokens[position] == ")" || tokens[position] in ["AND", "OR", "WITH"] then Err(Incomplete)
    else if Keyword(tokens, position + 1, "WITH") then
      if position + 2 < |tokens| then
        Ok((License(tokens[position] + " WITH " + tokens[position + 2]), position + 3))
      else Err(NoException)
    else Ok((License(tokens[position]), position + 1))
  }

  function Parse(text: string): Parsing<Expression> {
    var tokens := Tokenize(text);
    match Chain(tokens, 0, Disjunction)
    case Err(e) => Err(e)
    case Ok(r) => if r.1 == |tokens| then Ok(r.0) else Err(Unreadable)
  }

  // ----------------------------------------------------------------- the parser

  /** `parse_or` and `parse_and`: they differ in the operator and in what their operands are. */
  method ParseOr(tokens: seq<string>, position: nat) returns (r: Parsed)
    ensures r == Chain(tokens, position, Disjunction)
    decreases |tokens| - position, 4
  {
    hide Operands, Primary, After;
    var first := ParseAnd(tokens, position);
    OperandsStart(tokens, position, Disjunction);
    if first.Err? {
      return first;
    }
    var items, at := [first.value.0], first.value.1;
    while Keyword(tokens, at, "OR")
      invariant position < at <= |tokens| && items != []
      invariant Operands(tokens, position, Disjunction) == Continued(items, tokens, at, Disjunction)
      decreases |tokens| - at
    {
      var next := ParseAnd(tokens, at + 1);
      OperandsContinue(items, tokens, at, Disjunction);
      if next.Err? {
        return next;
      }
      items := items + [next.value.0];
      at := next.value.1;
    }
    r := Ok((Combine(Disjunction, items), at));
  }

  method ParseAnd(tokens: seq<string>, position: nat) returns (r: Parsed)
    ensures r == Chain(tokens, position, Conjunction)
    decreases |tokens| - position, 2
  {
    hide Operands, Primary, After;
    var first := ParsePrimary(tokens, position);
    OperandsStart(tokens, position, Conjunction);
    if first.Err? {
      return first;
    }
    var items, at := [first.value.0], first.value.1;
    while Keyword(tokens, at, "AND")
      invariant position < at <= |tokens| && items != []
      invariant Operands(tokens, position, Conjunction) == Continued(items, tokens, at, Conjunction)
      decreases |tokens| - at
    {
      var next := ParsePrimary(tokens, at + 1);
      OperandsContinue(items, tokens, at, Conjunction);
      if next.Err? {
        return next;
      }
      items := items + [next.value.0];
      at := next.value.1;
    }
    r := Ok((Combine(Conjunction, items), at));
  }

  method ParsePrimary(tokens: seq<string>, position: nat) returns (r: Parsed)
    ensures r == Primary(tokens, position)
    decreases |tokens| - position, 0
  {
    if position >= |tokens| {
      return Err(Incomplete);
    }
    var token := tokens[position];
    if token == "(" {
      var inner := ParseOr(tokens, position + 1);
      if inner.Err? {
        return inner;
      }
      if inner.value.1 >= |tokens| || tokens[inner.value.1] != ")" {
        return Err(Unbalanced);
      }
      return Ok((inner.value.0, inner.value.1 + 1));
    }
    if token == ")" || token in ["AND", "OR", "WITH"] {
      return Err(Incomplete);
    }
    var license, at := token, position + 1;
    if Keyword(tokens, at, "WITH") {
      if at + 1 >= |tokens| {
        return Err(NoException);
      }
      license := license + " WITH " + tokens[at + 1];
      at := at + 2;
    }
    r := Ok((License(license), at));
  }

  function After(items: seq<Expression>, r: ParsedList): ParsedList {
    match r
    case Err(e) => Err(e)
    case Ok(list) => Ok((items + list.0, list.1))
  }

  /** One operand of a list. */
  function Operand(tokens: seq<string>, position: nat, op: Operator): Parsed {
    if op.Conjunction? then Primary(tokens, position) else Chain(tokens, position, Conjunction)
  }

  /** The list once the items are read and the position is reached. */
  function Continued(items: seq<Expression>, tokens: seq<string>, at: nat, op: Operator): ParsedList {
    if Keyword(tokens, at, Word(op)) then After(items, Operands(tokens, at + 1, op)) else Ok((items, at))
  }

  lemma OperandsStart(tokens: seq<string>, position: nat, op: Operator)
    ensures var first := Operand(tokens, position, op);
      Operands(tokens, position, op) ==
        if first.Err? then Err(first.error) else Continued([first.value.0], tokens, first.value.1, op)
  {
    hide Primary;
  }

  lemma OperandsContinue(items: seq<Expression>, tokens: seq<string>, at: nat, op: Operator)
    requires Keyword(tokens, at, Word(op))
    ensures var next := Operand(tokens, at + 1, op);
      Continued(items, tokens, at, op) ==
        if next.Err? then Err(next.error) else Continued(items + [next.value.0], tokens, next.value.1, op)
  {
    OperandsStart(tokens, at + 1, op);
    var next := Operand(tokens, at + 1, op);
    hide Operands, Primary;
    if next.Ok? {
      AfterTwice(items, next.value.0, tokens, next.value.1, op);
    }
  }

  lemma AfterTwice(items: seq<Expression>, next: Expression, tokens: seq<string>, at: nat, op: Operator)
    ensures After(items, After([next], Operands(tokens, at + 1, op)))
      == After(items + [next], Operands(tokens, at + 1, op))
  {
    var r := Operands(tokens, at + 1, op);
    if r.Ok? {
      assert items + ([next] + r.value.0) == items + [next] + r.value.0;
    }
  }

  method ParseText(text: string) returns (r: Parsing<Expression>)
    ensures r == Parse(text)
  {
    var tokens := Tokenize(text);
    var e := ParseOr(tokens, 0);
    match e
    case Err(error) => r := Err(error);
    case Ok(v) => r := if v.1 == |tokens| then Ok(v.0) else Err(Unreadable);
  }
}
