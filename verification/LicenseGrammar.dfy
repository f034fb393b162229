/** The grammar of license expressions, and that the parser accepts exactly the texts it derives. */
module LicenseGrammar {
  import opened Wrappers
  import opened LicenseText
  import opened LicenseParser
  import opened LicensePrinter

  // --------------------------------------------------------------------- the grammar

  ghost predicate IsAnd(t: string) {
    |t| == 3 && (t[0] == 'A' || t[0] == 'a') && (t[1] == 'N' || t[1] == 'n') && (t[2] == 'D' || t[2] == 'd')
  }

  ghost predicate IsOr(t: string) {
    |t| == 2 && (t[0] == 'O' || t[0] == 'o') && (t[1] == 'R' || t[1] == 'r')
  }

  ghost predicate IsWith(t: string) {
    && |t| == 4 && (t[0] == 'W' || t[0] == 'w') && (t[1] == 'I' || t[1] == 'i') && (t[2] == 'T' || t[2] == 't')
    && (t[3] == 'H' || t[3] == 'h')
  }

  /** A license may have the name of an operator, but not in capitals. */
  ghost predicate Names(t: string) {
    t != "(" && t != ")" && t != "AND" && t != "OR" && t != "WITH"
  }

  /** A license, with an exception or without, or an expression in parentheses. */
  ghost predicate IsPrimary(e: Expression, ts: seq<string>)
    decreases |ts|, 0
  {
    || (|ts| == 1 && Names(ts[0]) && e == License(ts[0]))
    || (|ts| == 3 && Names(ts[0]) && IsWith(ts[1]) && e == License(ts[0] + " WITH " + ts[2]))
    || (|ts| >= 2 && ts[0] == "(" && ts[|ts| - 1] == ")" && Derives(e, ts[1..|ts| - 1]))
  }

  /** One of these alone, or a list of them with `AND` in between. */
  ghost predicate IsConjunction(e: Expression, ts: seq<string>)
    decreases |ts|, 3
  {
    IsPrimary(e, ts) || (e.And? && |e.items| >= 2 && AreJoined(Conjunction, e.items, ts))
  }

  /** A license expression: one of these alone, or a list of them with `OR` in between. */
  ghost predicate Derives(e: Expression, ts: seq<string>)
    decreases |ts|, 6
  {
    IsConjunction(e, ts) || (e.Or? && |e.items| >= 2 && AreJoined(Disjunction, e.items, ts))
  }

  ghost predicate IsItem(op: Operator, e: Expression, ts: seq<string>)
    decreases |ts|, if op.Conjunction? then 1 else 4
  {
    if op.Conjunction? then IsPrimary(e, ts) else IsConjunction(e, ts)
  }

  ghost predicate IsJoint(op: Operator, t: string) {
    if op.Conjunction? then IsAnd(t) else IsOr(t)
  }

  ghost predicate AreJoined(op: Operator, items: seq<Expression>, ts: seq<string>)
    decreases |ts|, if op.Conjunction? then 2 else 5
  {
    if |items| == 1 then IsItem(op, items[0], ts)
    else
      items != [] && exists k :: 0 <= k < |ts| && IsJoint(op, ts[k]) && IsItem(op, items[0], ts[..k])
                                 && AreJoined(op, items[1..], ts[k + 1..])
  }

  // ------------------------------------------------------------- the parser derives

  lemma Keywords(tokens: seq<string>, position: nat)
    ensures Keyword(tokens, position, "AND") <==> position < |tokens| && IsAnd(tokens[position])
    ensures Keyword(tokens, position, "OR") <==> position < |tokens| && IsOr(tokens[position])
    ensures Keyword(tokens, position, "WITH") <==> position < |tokens| && IsWith(tokens[position])
  {
  }

  lemma Slice(tokens: seq<string>, p: nat, q: nat, i: nat, j: nat)
    requires p <= q <= |tokens| && i <= j <= q - p
    ensures tokens[p..q][i..j] == tokens[p + i..p + j]
    ensures i == 0 ==> tokens[p..q][..j] == tokens[p..p + j]
    ensures j == q - p ==> tokens[p..q][i..] == tokens[p + i..q]
  {
    var part := tokens[p..q][i..j];
    assert |part| == j - i && forall x :: 0 <= x < |part| ==> part[x] == tokens[p + i..p + j][x];
  }

  lemma JointWord(tokens: seq<string>, position: nat, op: Operator)
    ensures Keyword(tokens, position, Word(op)) <==> position < |tokens| && IsJoint(op, tokens[position])
  {
    Keywords(tokens, position);
  }

  lemma {:induction false} OperandsDerive(tokens: seq<string>, p: nat, op: Operator, items: seq<Expression>, q: nat)
    requires Operands(tokens, p, op) == Ok((items, q))
    ensures p < q <= |tokens| && items != [] && AreJoined(op, items, tokens[p..q])
    decreases |tokens| - p, if op.Conjunction? then 2 else 5
  {
    hide Chain, Primary, IsItem, Keyword, IsJoint;
    OperandsStart(tokens, p, op);
    var first := Operand(tokens, p, op).value;
    OperandDerives(tokens, p, op, first.0, first.1);
    JointWord(tokens, first.1, op);
    if Keyword(tokens, first.1, Word(op)) {
      var rest := Operands(tokens, first.1 + 1, op).value;
      OperandsDerive(tokens, first.1 + 1, op, rest.0, rest.1);
      JoinedNext(op, first.0, rest.0, tokens[p..q], first.1 - p);
      Slice(tokens, p, q, 0, first.1 - p);
      Slice(tokens, p, q, first.1 - p + 1, q - p);
    }
  }

  lemma JoinedNext(op: Operator, e: Expression, items: seq<Expression>, ts: seq<string>, k: nat)
    requires k < |ts| && IsJoint(op, ts[k]) && items != []
    ensures IsItem(op, e, ts[..k]) && AreJoined(op, items, ts[k + 1..]) ==> AreJoined(op, [e] + items, ts)
  {
    assert ([e] + items)[1..] == items;
  }

  lemma {:induction false} OperandDerives(tokens: seq<string>, p: nat, op: Operator, e: Expression, q: nat)
    requires Operand(tokens, p, op) == Ok((e, q))
    ensures p < q <= |tokens| && IsItem(op, e, tokens[p..q])
    decreases |tokens| - p, if op.Conjunction? then 1 else 4
  {
    if op.Conjunction? {
      PrimaryDerives(tokens, p, e, q);
    } else {
      ConjunctionDerives(tokens, p, e, q);
    }
  }

  lemma {:induction false} PrimaryDerives(tokens: seq<string>, p: nat, e: Expression, q: nat)
    requires Primary(tokens, p) == Ok((e, q))
    ensures p < q <= |tokens| && IsPrimary(e, tokens[p..q])
    decreases |tokens| - p, 0
  {
    Keywords(tokens, p + 1);
    if tokens[p] == "(" {
      ChainDerives(tokens, p + 1, e, q - 1);
      Slice(tokens, p, q, 1, q - p - 1);
    }
  }

  lemma {:induction false} ConjunctionDerives(tokens: seq<string>, p: nat, e: Expression, q: nat)
    requires Chain(tokens, p, Conjunction) == Ok((e, q))
    ensures p < q <= |tokens| && IsConjunction(e, tokens[p..q])
    decreases |tokens| - p, 3
  {
    var items := Operands(tokens, p, Conjunction).value.0;
    OperandsDerive(tokens, p, Conjunction, items, q);
  }

  lemma {:induction false} ChainDerives(tokens: seq<string>, p: nat, e: Expression, q: nat)
    requires Chain(tokens, p, Disjunction) == Ok((e, q))
    ensures p < q <= |tokens| && Derives(e, tokens[p..q])
    decreases |tokens| - p, 6
  {
    var items := Operands(tokens, p, Disjunction).value.0;
    OperandsDerive(tokens, p, Disjunction, items, q);
  }

  // --------------------------------------------------- whatever derives is parsed so

  lemma {:induction false} PrimaryIsRead(e: Expression, tokens: seq<string>, p: nat, q: nat)
    requires p <= q <= |tokens| && IsPrimary(e, tokens[p..q]) && !Keyword(tokens, q, "WITH")
    ensures Primary(tokens, p) == Ok((e, q))
    decreases q - p, 0
  {
    var ts := tokens[p..q];
    Keywords(tokens, p + 1);
    assert ts[0] == tokens[p];
    if |ts| >= 2 && ts[0] == "(" && ts[|ts| - 1] == ")" && Derives(e, ts[1..|ts| - 1]) {
      Slice(tokens, p, q, 1, |ts| - 1);
      ParenthesisStops(tokens, q - 1);
      ExpressionIsRead(e, tokens, p + 1, q - 1);
    } else if |ts| == 3 {
      assert ts[1] == tokens[p + 1] && ts[2] == tokens[p + 2];
    }
  }

  lemma {:induction false} ItemIsRead(op: Operator, e: Expression, tokens: seq<string>, p: nat, q: nat)
    requires p <= q <= |tokens| && IsItem(op, e, tokens[p..q]) && Stops(tokens, q, op)
    ensures Operand(tokens, p, op) == Ok((e, q))
    decreases q - p, if op.Conjunction? then 1 else 4
  {
    if op.Conjunction? {
      PrimaryIsRead(e, tokens, p, q);
    } else {
      ConjunctionIsRead(e, tokens, p, q);
    }
  }

  lemma {:induction false} JoinedAreRead(op: Operator, items: seq<Expression>, tokens: seq<string>, p: nat, q: nat)
    requires p <= q <= |tokens| && items != [] && AreJoined(op, items, tokens[p..q])
    requires Stops(tokens, q, op) && !Keyword(tokens, q, Word(op))
    ensures Operands(tokens, p, op) == Ok((items, q))
    decreases q - p, if op.Conjunction? then 2 else 5
  {
    hide Operands, Chain, Primary, IsItem, Keyword, Stops;
    if |items| == 1 {
      ItemIsRead(op, items[0], tokens, p, q);
      OneOperand(tokens, p, op, items[0], q);
      assert [items[0]] == items;
    } else {
      var k := FirstJoint(op, items, tokens, p, q);
      ItemIsRead(op, items[0], tokens, p, k);
      JoinedAreRead(op, items[1..], tokens, k + 1, q);
      OperandsStep(tokens, p, op, items[0], k, items[1..], q);
      assert [items[0]] + items[1..] == items;
    }
  }

  lemma JoinedAt(op: Operator, items: seq<Expression>, ts: seq<string>) returns (i: nat)
    requires |items| > 1 && AreJoined(op, items, ts)
    ensures i < |ts| && IsJoint(op, ts[i]) && IsItem(op, items[0], ts[..i]) && AreJoined(op, items[1..], ts[i + 1..])
  {
    hide IsItem, IsJoint;
    i :| 0 <= i < |ts| && IsJoint(op, ts[i]) && IsItem(op, items[0], ts[..i])
         && AreJoined(op, items[1..], ts[i + 1..]);
  }

  /** Where the first item of a list ends. */
  lemma FirstJoint(op: Operator, items: seq<Expression>, tokens: seq<string>, p: nat, q: nat) returns (k: nat)
    requires p <= q <= |tokens| && |items| > 1 && AreJoined(op, items, tokens[p..q])
    ensures p <= k < q && IsItem(op, items[0], tokens[p..k]) && AreJoined(op, items[1..], tokens[k + 1..q])
    ensures Keyword(tokens, k, Word(op)) && Stops(tokens, k, op)
  {
    hide IsItem, Keyword, IsJoint, Stops, AreJoined;
    var ts := tokens[p..q];
    var i := JoinedAt(op, items, ts);
    k := p + i;
    assert ts[i] == tokens[k];
    Slice(tokens, p, q, 0, i);
    Slice(tokens, p, q, i + 1, |ts|);
    JointWord(tokens, k, op);
    JointStops(tokens, k, op);
  }

  lemma JointStops(tokens: seq<string>, position: nat, op: Operator)
    requires position < |tokens| && IsJoint(op, tokens[position])
    ensures Stops(tokens, position, op)
  {
    Keywords(tokens, position);
  }

  lemma {:induction false} ConjunctionIsRead(e: Expression, tokens: seq<string>, p: nat, q: nat)
    requires p <= q <= |tokens| && IsConjunction(e, tokens[p..q]) && Stops(tokens, q, Disjunction)
    ensures Chain(tokens, p, Conjunction) == Ok((e, q))
    decreases q - p, 3
  {
    hide Operands, Primary, Keyword;
    if IsPrimary(e, tokens[p..q]) {
      PrimaryIsRead(e, tokens, p, q);
      OneOperand(tokens, p, Conjunction, e, q);
    } else {
      JoinedAreRead(Conjunction, e.items, tokens, p, q);
    }
  }

  lemma {:induction false} ExpressionIsRead(e: Expression, tokens: seq<string>, p: nat, q: nat)
    requires p <= q <= |tokens| && Derives(e, tokens[p..q])
    requires Stops(tokens, q, Disjunction) && !Keyword(tokens, q, "OR")
    ensures Chain(tokens, p, Disjunction) == Ok((e, q))
    decreases q - p, 6
  {
    hide Operands, Primary, Keyword;
    if IsConjunction(e, tokens[p..q]) {
      ConjunctionIsRead(e, tokens, p, q);
      OneOperand(tokens, p, Disjunction, e, q);
    } else {
      JoinedAreRead(Disjunction, e.items, tokens, p, q);
    }
  }

  /** A text parses to an expression exactly if the grammar derives the expression from its tokens; every other
      text is refused. */
  lemma ParsesIffDerived(text: string, e: Expression)
    ensures Parse(text) == Ok(e) <==> Derives(e, Tokenize(text))
  {
    var tokens := Tokenize(text);
    assert tokens[0..|tokens|] == tokens;
    hide Tokenize, Derives, Operands;
    if Parse(text) == Ok(e) {
      ChainDerives(tokens, 0, e, |tokens|);
    }
    if Derives(e, tokens) {
      AtWhole(tokens);
      assert !Keyword(tokens, |tokens|, Word(Disjunction));
      ExpressionIsRead(e, tokens, 0, |tokens|);
    }
  }

  // ------------------------------------------------------------------------ refusals

  /** What an error tells: an exception is missing only after a last `WITH`, and parentheses are unbalanced only if
      one is opened. */
  ghost predicate Explained(tokens: seq<string>, e: ParseError) {
    match e
    case NoException => tokens != [] && IsWith(tokens[|tokens| - 1])
    case Unbalanced => "(" in tokens
    case Incomplete => true
    case Unreadable => false
  }

  lemma {:induction false} PrimaryExplained(tokens: seq<string>, p: nat)
    ensures Primary(tokens, p).Err? ==> Explained(tokens, Primary(tokens, p).error)
    decreases |tokens| - p, 0
  {
    if p < |tokens| {
      Keywords(tokens, p + 1);
      if tokens[p] == "(" {
        ChainExplained(tokens, p + 1, Disjunction);
      }
    }
  }

  lemma {:induction false} OperandsExplained(tokens: seq<string>, p: nat, op: Operator)
    ensures Operands(tokens, p, op).Err? ==> Explained(tokens, Operands(tokens, p, op).error)
    decreases |tokens| - p, Level(op)
  {
    hide Explained, Keyword;
    OperandsStart(tokens, p, op);
    if op.Conjunction? {
      PrimaryExplained(tokens, p);
    } else {
      ChainExplained(tokens, p, Conjunction);
    }
    var first := Operand(tokens, p, op);
    if first.Ok? && Keyword(tokens, first.value.1, Word(op)) {
      OperandsExplained(tokens, first.value.1 + 1, op);
    }
  }

  lemma {:induction false} ChainExplained(tokens: seq<string>, p: nat, op: Operator)
    ensures Chain(tokens, p, op).Err? ==> Explained(tokens, Chain(tokens, p, op).error)
    decreases |tokens| - p, Level(op) + 1
  {
    hide Explained;
    OperandsExplained(tokens, p, op);
  }

  /** Every refusal names what is wrong; a text is unreadable only if an expression ends before the text does. */
  lemma ErrorsExplained(text: string, e: ParseError) returns (prefix: Expression, end: nat)
    requires Parse(text) == Err(e)
    ensures e != Unreadable ==> Explained(Tokenize(text), e)
    ensures e == Unreadable ==> end < |Tokenize(text)| && Derives(prefix, Tokenize(text)[..end])
  {
    var tokens := Tokenize(text);
    hide Tokenize, Explained, Derives, Operands;
    ChainExplained(tokens, 0, Disjunction);
    prefix, end := License(""), 0;
    var r := Chain(tokens, 0, Disjunction);
    if r.Ok? {
      prefix, end := r.value.0, r.value.1;
      ChainDerives(tokens, 0, prefix, end);
      assert tokens[0..end] == tokens[..end];
    } else {
      UnreadableIsLate(tokens, e);
    }
  }

  lemma UnreadableIsLate(tokens: seq<string>, e: ParseError)
    requires Explained(tokens, e)
    ensures e != Unreadable
  {
  }
}
