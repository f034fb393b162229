/** Printing license expressions, and that the parser reads back exactly what was printed. */
module LicensePrinter {
  import opened Wrappers
  import opened Text
  import opened LicenseText
  import opened LicenseParser

  // -------------------------------------------------------- what the parser can return

  /** A word that may start a license: the operators are recognised in capitals only. */
  ghost predicate IsStart(t: string) {
    IsWord(t) && t !in ["AND", "OR", "WITH"]
  }

  ghost predicate WithException(l: string, name: string, exception: string) {
    IsStart(name) && IsToken(exception) && l == name + " WITH " + exception
  }

  ghost predicate IsLicense(l: string) {
    IsStart(l) || exists name, exception :: WithException(l, name, exception)
  }

  /** Operators join at least two operands. */
  ghost predicate WellFormed(e: Expression) {
    match e
    case License(l) => IsLicense(l)
    case And(items) => |items| >= 2 && forall i :: 0 <= i < |items| ==> WellFormed(items[i])
    case Or(items) => |items| >= 2 && forall i :: 0 <= i < |items| ==> WellFormed(items[i])
  }

  ghost predicate AllWellFormed(items: seq<Expression>) {
    forall i :: 0 <= i < |items| ==> WellFormed(items[i])
  }

  lemma CombineWellFormed(op: Operator, items: seq<Expression>)
    requires items != [] && AllWellFormed(items)
    ensures WellFormed(Combine(op, items))
  {
  }

  lemma {:induction false} OperandsWellFormed(tokens: seq<string>, position: nat, op: Operator)
    requires AllTokens(tokens)
    ensures var r := Operands(tokens, position, op); r.Ok? ==> AllWellFormed(r.value.0)
    decreases |tokens| - position, Level(op)
  {
    var first := if op.Conjunction? then Primary(tokens, position) else Chain(tokens, position, Conjunction);
    if op.Conjunction? {
      PrimaryWellFormed(tokens, position);
    } else {
      ChainWellFormed(tokens, position, Conjunction);
    }
    if first.Ok? && Keyword(tokens, first.value.1, Word(op)) {
      OperandsWellFormed(tokens, first.value.1 + 1, op);
    }
  }

  lemma {:induction false} ChainWellFormed(tokens: seq<string>, position: nat, op: Operator)
    requires AllTokens(tokens)
    ensures var r := Chain(tokens, position, op); r.Ok? ==> WellFormed(r.value.0)
    decreases |tokens| - position, Level(op) + 1
  {
    OperandsWellFormed(tokens, position, op);
    var list := Operands(tokens, position, op);
    if list.Ok? {
      CombineWellFormed(op, list.value.0);
    }
  }

  lemma {:induction false} PrimaryWellFormed(tokens: seq<string>, position: nat)
    requires AllTokens(tokens)
    ensures var r := Primary(tokens, position); r.Ok? ==> WellFormed(r.value.0)
    decreases |tokens| - position, 0
  {
    if position < |tokens| {
      if tokens[position] == "(" {
        ChainWellFormed(tokens, position + 1, Disjunction);
      } else if Primary(tokens, position).Ok? {
        assert IsStart(tokens[position]);
        if Keyword(tokens, position + 1, "WITH") {
          var name, exception := tokens[position], tokens[position + 2];
          assert WithException(name + " WITH " + exception, name, exception);
        }
      }
    }
  }

  // ------------------------------------------------------------------- printing

  /** An operand of `op`: whatever binds no tighter than `op` goes in parentheses. */
  function PrintOperand(e: Expression, op: Operator): seq<string>
    decreases e, 1
  {
    if op.Disjunction? && e.And? && e.items != [] then PrintList(e.items, Conjunction) else PrintPrimary(e)
  }

  function PrintPrimary(e: Expression): seq<string>
    decreases e, 0
  {
    match e
    case License(l) => SplitWhitespace(l)
    case And(items) => ["("] + (if items == [] then [] else PrintList(items, Conjunction)) + [")"]
    case Or(items) => ["("] + (if items == [] then [] else PrintList(items, Disjunction)) + [")"]
  }

  function PrintList(items: seq<Expression>, op: Operator): seq<string>
    requires items != []
    decreases items, 0
  {
    if |items| == 1 then PrintOperand(items[0], op)
    else PrintOperand(items[0], op) + [Word(op)] + PrintList(items[1..], op)
  }

  function Print(e: Expression): seq<string> {
    if e.Or? && e.items != [] then PrintList(e.items, Disjunction) else PrintOperand(e, Disjunction)
  }

  function PrintText(e: Expression): string {
    Join(Print(e))
  }

  // -------------------------------------------------------------- printed licenses

  lemma SplitTokenOnly(t: string)
    requires IsToken(t)
    ensures SplitWhitespace(t) == [t]
  {
    if IsWord(t) {
      SolidSplit(t);
    } else {
      assert t[1..] == "" && t == [t[0]] && !IsWhitespace(t[0]);
      assert SplitWhitespace(t) == [[t[0]]] + SplitWhitespace("");
    }
  }

  lemma ExceptionWords(name: string, exception: string)
    requires IsStart(name) && IsToken(exception)
    ensures SplitWhitespace(name + " WITH " + exception) == [name, "WITH", exception]
  {
    var head := name + " WITH";
    assert name + " WITH " + exception == head + [' '] + exception;
    SplitAtWhitespace(head, ' ', exception);
    HeadWords(name);
    SplitTokenOnly(exception);
  }

  lemma HeadWords(name: string)
    requires IsStart(name)
    ensures SplitWhitespace(name + " WITH") == [name, "WITH"]
  {
    SolidSplit(name);
    SolidSplit("WITH");
    hide SplitWhitespace;
    assert name + " WITH" == name + [' '] + "WITH";
    SplitAtWhitespace(name, ' ', "WITH");
  }

  lemma LicenseWords(l: string)
    requires IsLicense(l)
    ensures IsStart(l) ==> SplitWhitespace(l) == [l]
    ensures !IsStart(l) ==> exists name, exception ::
      WithException(l, name, exception) && SplitWhitespace(l) == [name, "WITH", exception]
  {
    if IsStart(l) {
      SolidSplit(l);
    } else {
      var name, exception :| WithException(l, name, exception);
      ExceptionWords(name, exception);
    }
  }

  // ------------------------------------------------------------------ reading back

  ghost predicate At(tokens: seq<string>, position: nat, p: seq<string>) {
    position + |p| <= |tokens| && tokens[position..position + |p|] == p
  }

  lemma AtSplit(tokens: seq<string>, position: nat, a: seq<string>, b: seq<string>)
    requires At(tokens, position, a + b)
    ensures At(tokens, position, a) && At(tokens, position + |a|, b)
  {
    var whole := tokens[position..position + |a| + |b|];
    assert whole[..|a|] == a && whole[|a|..] == b;
  }

  /** Nothing after the printed tokens extends the operand of `op`. */
  predicate Stops(tokens: seq<string>, position: nat, op: Operator) {
    !Keyword(tokens, position, "WITH") && (op.Disjunction? ==> !Keyword(tokens, position, "AND"))
  }

  lemma WordStops(tokens: seq<string>, position: nat, op: Operator)
    requires position < |tokens| && tokens[position] == Word(op)
    ensures Stops(tokens, position, op) && Keyword(tokens, position, Word(op))
  {
    assert Lower("OR"[0]) != Lower("AND"[0]) && Lower("AND"[0]) != Lower("WITH"[0])
      && Lower("OR"[0]) != Lower("WITH"[0]);
  }

  lemma ParenthesisStops(tokens: seq<string>, position: nat)
    requires position < |tokens| && tokens[position] == ")"
    ensures Stops(tokens, position, Disjunction) && !Keyword(tokens, position, "OR")
  {
  }

  lemma {:induction false} PrimaryReads(e: Expression, tokens: seq<string>, position: nat)
    requires WellFormed(e) && At(tokens, position, PrintPrimary(e))
    requires !Keyword(tokens, position + |PrintPrimary(e)|, "WITH")
    ensures Primary(tokens, position) == Ok((e, position + |PrintPrimary(e)|))
    decreases e, 0
  {
    var p := PrintPrimary(e);
    match e
    case License(l) =>
      LicenseReads(l, tokens, position);
    case And(items) =>
      ParenthesisReads(Conjunction, items, tokens, position);
    case Or(items) =>
      ParenthesisReads(Disjunction, items, tokens, position);
  }

  lemma LicenseReads(l: string, tokens: seq<string>, position: nat)
    requires IsLicense(l) && At(tokens, position, SplitWhitespace(l))
    requires !Keyword(tokens, position + |SplitWhitespace(l)|, "WITH")
    ensures Primary(tokens, position) == Ok((License(l), position + |SplitWhitespace(l)|))
  {
    LicenseWords(l);
    var words := SplitWhitespace(l);
    var here := tokens[position..position + |words|];
    assert here == words;
    hide SplitWhitespace, IsWord;
    if !IsStart(l) {
      var name, exception :| WithException(l, name, exception) && words == [name, "WITH", exception];
      StartIsNoParenthesis(name);
      assert tokens[position] == here[0] && tokens[position + 1] == here[1] && tokens[position + 2] == here[2];
    } else {
      StartIsNoParenthesis(l);
      assert tokens[position] == here[0];
    }
  }

  lemma StartIsNoParenthesis(t: string)
    requires IsStart(t)
    ensures t != "(" && t != ")"
  {
    assert !Special(t[0]);
  }

  /** A printed operator expression, not extended by what follows, is read as a whole. */
  lemma {:induction false} ChainReads(op: Operator, items: seq<Expression>, tokens: seq<string>, position: nat)
    requires |items| >= 2 && AllWellFormed(items)
    requires At(tokens, position, PrintList(items, op))
    requires Stops(tokens, position + |PrintList(items, op)|, Disjunction)
    requires !Keyword(tokens, position + |PrintList(items, op)|, "OR")
    ensures Chain(tokens, position, Disjunction) == Ok((Combine(op, items), position + |PrintList(items, op)|))
    decreases items, 3
  {
    ListReads(items, op, tokens, position);
    ListChain(tokens, position, op, items, position + |PrintList(items, op)|);
  }

  lemma ListChain(tokens: seq<string>, position: nat, op: Operator, items: seq<Expression>, end: nat)
    requires |items| >= 2 && Operands(tokens, position, op) == Ok((items, end)) && !Keyword(tokens, end, "OR")
    ensures Chain(tokens, position, Disjunction) == Ok((Combine(op, items), end))
  {
    if op.Conjunction? {
      assert Chain(tokens, position, Conjunction) == Ok((And(items), end));
      OneOperand(tokens, position, Disjunction, And(items), end);
    }
  }

  lemma OneOperand(tokens: seq<string>, position: nat, op: Operator, e: Expression, end: nat)
    requires Operand(tokens, position, op) == Ok((e, end)) && !Keyword(tokens, end, Word(op))
    ensures Operands(tokens, position, op) == Ok(([e], end))
  {
    OperandsStart(tokens, position, op);
  }

  lemma {:induction false} ParenthesisReads(op: Operator, items: seq<Expression>, tokens: seq<string>, position: nat)
    requires |items| >= 2 && AllWellFormed(items)
    requires At(tokens, position, ["("] + PrintList(items, op) + [")"])
    ensures Primary(tokens, position) == Ok((Combine(op, items), position + |PrintList(items, op)| + 2))
    decreases items, 4
  {
    var p := PrintList(items, op);
    AtSplit(tokens, position, ["("] + p, [")"]);
    AtSplit(tokens, position, ["("], p);
    var end := position + 1 + |p|;
    assert tokens[position] == tokens[position..position + 1][0] && tokens[end] == tokens[end..end + 1][0];
    ParenthesisStops(tokens, end);
    ChainReads(op, items, tokens, position + 1);
  }

  lemma {:induction false} OperandReads(e: Expression, op: Operator, tokens: seq<string>, position: nat)
    requires WellFormed(e) && At(tokens, position, PrintOperand(e, op))
    requires Stops(tokens, position + |PrintOperand(e, op)|, op)
    ensures Operand(tokens, position, op) == Ok((e, position + |PrintOperand(e, op)|))
    decreases e, 1
  {
    if op.Disjunction? && e.And? {
      ListReads(e.items, Conjunction, tokens, position);
      assert Combine(Conjunction, e.items) == And(e.items) == e;
      hide Operands, At, Stops, Keyword;
    } else {
      PrimaryReads(e, tokens, position);
      hide At, Keyword, Operands, Primary;
      if op.Disjunction? {
        OneOperand(tokens, position, Conjunction, e, position + |PrintOperand(e, op)|);
      }
    }
  }

  lemma OperandsStep(tokens: seq<string>, position: nat, op: Operator, e: Expression, middle: nat,
                     rest: seq<Expression>, end: nat)
    requires Operand(tokens, position, op) == Ok((e, middle))
    requires Keyword(tokens, middle, Word(op)) && Operands(tokens, middle + 1, op) == Ok((rest, end))
    ensures Operands(tokens, position, op) == Ok(([e] + rest, end))
  {
  }

  lemma AtList(tokens: seq<string>, position: nat, first: seq<string>, word: string, rest: seq<string>)
    requires At(tokens, position, first + [word] + rest)
    ensures At(tokens, position, first) && At(tokens, position + |first| + 1, rest)
    ensures position + |first| < |tokens| && tokens[position + |first|] == word
  {
    AtSplit(tokens, position, first + [word], rest);
    AtSplit(tokens, position, first, [word]);
    var middle := position + |first|;
    assert tokens[middle] == tokens[middle..middle + 1][0];
  }

  lemma {:induction false} ListReads(items: seq<Expression>, op: Operator, tokens: seq<string>, position: nat)
    requires items != [] && AllWellFormed(items)
    requires At(tokens, position, PrintList(items, op))
    requires Stops(tokens, position + |PrintList(items, op)|, op)
    requires !Keyword(tokens, position + |PrintList(items, op)|, Word(op))
    ensures Operands(tokens, position, op) == Ok((items, position + |PrintList(items, op)|))
    decreases items, 2
  {
    hide At, Stops, Keyword, Operands, Chain, Primary, PrintOperand, WellFormed;
    var first := PrintOperand(items[0], op);
    if |items| == 1 {
      OperandReads(items[0], op, tokens, position);
      OneOperand(tokens, position, op, items[0], position + |first|);
      assert [items[0]] == items;
    } else {
      var rest := PrintList(items[1..], op);
      var middle := position + |first|;
      AtList(tokens, position, first, Word(op), rest);
      WordStops(tokens, middle, op);
      OperandReads(items[0], op, tokens, position);
      ListReads(items[1..], op, tokens, middle + 1);
      OperandsStep(tokens, position, op, items[0], middle, items[1..], middle + 1 + |rest|);
      assert [items[0]] + items[1..] == items;
    }
  }

  lemma PrintReads(e: Expression, tokens: seq<string>)
    requires WellFormed(e) && tokens == Print(e)
    ensures Chain(tokens, 0, Disjunction) == Ok((e, |tokens|))
  {
    AtWhole(tokens);
    hide At, Stops, Keyword, WellFormed;
    if e.Or? {
      OrWellFormed(e);
      ListReads(e.items, Disjunction, tokens, 0);
      ListIsChain(tokens, e.items);
    } else {
      OperandReads(e, Disjunction, tokens, 0);
      OneIsChain(tokens, e);
    }
  }

  lemma AtWhole(tokens: seq<string>)
    ensures At(tokens, 0, tokens)
    ensures forall op :: Stops(tokens, |tokens|, op) && !Keyword(tokens, |tokens|, Word(op))
  {
    assert tokens[0..|tokens|] == tokens;
  }

  lemma OrWellFormed(e: Expression)
    requires WellFormed(e) && e.Or?
    ensures |e.items| >= 2 && AllWellFormed(e.items)
  {
  }

  lemma ListIsChain(tokens: seq<string>, items: seq<Expression>)
    requires |items| >= 2 && Operands(tokens, 0, Disjunction) == Ok((items, |tokens|))
    ensures Chain(tokens, 0, Disjunction) == Ok((Or(items), |tokens|))
  {
  }

  lemma OneIsChain(tokens: seq<string>, e: Expression)
    requires Chain(tokens, 0, Conjunction) == Ok((e, |tokens|)) && !Keyword(tokens, |tokens|, "OR")
    ensures Chain(tokens, 0, Disjunction) == Ok((e, |tokens|))
  {
  }

  // ---------------------------------------------------------------- from text to text

  lemma {:induction false} PrimaryTokens(e: Expression)
    requires WellFormed(e)
    ensures AllTokens(PrintPrimary(e))
    decreases e, 0
  {
    match e
    case License(l) =>
      LicenseWords(l);
      assert IsWord("WITH");
    case And(items) => ListTokens(items, Conjunction);
    case Or(items) => ListTokens(items, Disjunction);
  }

  lemma {:induction false} OperandTokens(e: Expression, op: Operator)
    requires WellFormed(e)
    ensures AllTokens(PrintOperand(e, op))
    decreases e, 1
  {
    if op.Disjunction? && e.And? {
      ListTokens(e.items, Conjunction);
    } else {
      PrimaryTokens(e);
    }
  }

  lemma {:induction false} ListTokens(items: seq<Expression>, op: Operator)
    requires items != [] && AllWellFormed(items)
    ensures AllTokens(PrintList(items, op))
    decreases items, 2
  {
    OperandTokens(items[0], op);
    assert IsWord("AND") && IsWord("OR");
    if |items| > 1 {
      ListTokens(items[1..], op);
    }
  }

  /** Printing a well-formed expression and parsing the text gives the expression back. */
  lemma RoundTrip(e: Expression)
    requires WellFormed(e)
    ensures Parse(PrintText(e)) == Ok(e)
  {
    if e.Or? {
      ListTokens(e.items, Disjunction);
    } else {
      OperandTokens(e, Disjunction);
    }
    TokenizeJoin(Print(e));
    PrintReads(e, Print(e));
  }

  /** The parser returns well-formed expressions only, whatever the text. */
  lemma ParseWellFormed(text: string)
    ensures Parse(text).Ok? ==> WellFormed(Parse(text).value)
  {
    TokenizeYieldsTokens(text);
    ChainWellFormed(Tokenize(text), 0, Disjunction);
  }

  /** What can be parsed at all is what is well formed, and every text means the same as the printed
      form of its expression. */
  lemma ParseImage(e: Expression)
    ensures (exists text :: Parse(text) == Ok(e)) <==> WellFormed(e)
  {
    if WellFormed(e) {
      RoundTrip(e);
    }
    if text :| Parse(text) == Ok(e) {
      ParseWellFormed(text);
    }
  }

  lemma SpacedBetween(a: string, m: string, b: string)
    requires Spaced(m) == " OR "
    ensures Spaced(a + m + b) == Spaced(a) + " OR " + Spaced(b)
  {
    SpacedConcat(a + m, b);
    SpacedConcat(a, m);
  }

  /** A slash is an `OR`. */
  lemma SlashIsOr(a: string, b: string)
    ensures Parse(a + "/" + b) == Parse(a + " OR " + b)
  {
    SpacedChar('/');
    SpacedNothing(" OR ");
    SpacedBetween(a, "/", b);
    SpacedBetween(a, " OR ", b);
    hide Chain, Spaced;
  }
}
