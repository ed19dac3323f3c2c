/** The whole calculation as a function: validate, convert, evaluate. */
module Calculator {
  import opened Outcomes
  import opened Parens
  import opened Lexer
  import opened ShuntingYard
  import opened PostfixEval

  /** Unbalanced parentheses are rejected before any conversion; otherwise the
      result is the value of the postfix form of the tokens. An Underflow never
      escapes: every pop of the engine is guarded. */
  ghost function Calculation(e: string): (r: Result<real>)
    ensures r == Fail(InvalidExpression) <==> !Balanced(e)
    ensures r.Fail? ==> r.error != Underflow
  {
    if !Balanced(e) then Fail(InvalidExpression) else EvalPostfix(Postfix(Lex(e)))
  }

  /** What reaches the evaluator after validation: no parenthesis, and exactly
      the number and operator tokens of the input, each once. */
  lemma ValidatedPostfix(e: string)
    requires Balanced(e)
    ensures NoParens(Postfix(Lex(e)))
    ensures multiset(Postfix(Lex(e))) == multiset(NonParen(Lex(e)))
    ensures |Postfix(Lex(e))| == |NonParen(Lex(e))|
    ensures Numbers(Postfix(Lex(e))) == Numbers(Lex(e))
  {
    LexWellFormed(e);
    LexBalanced(e);
    PostfixOfBalanced(Lex(e));
    PostfixKeepsNumberOrder(Lex(e));
  }

  /** On validated input every ')' token finds a '(' on the operator stack. */
  lemma ValidatedCloseFindsOpen(e: string, i: nat)
    requires Balanced(e)
    requires i < |Lex(e)| && Lex(e)[i] == Close
    ensures var st := Scan(Lex(e)[..i]);
      var r := PopToOpen(st.ops, st.out);
      r.ops != [] && r.ops[0] == Open
  {
    LexWellFormed(e);
    LexBalanced(e);
    CloseFindsOpen(Lex(e), i);
  }
}
