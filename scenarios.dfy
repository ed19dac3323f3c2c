/** Worked expressions: what the calculator answers for a few inputs. */
module Scenarios {
  import opened Outcomes
  import opened Parens
  import opened Lexer
  import opened ShuntingYard
  import opened PostfixEval
  import opened Calculator

  // ---------------------------------------------------------------------------
  // The expressions.

  /** Multiplication binds tighter than addition: 3+4*2 is 11. */
  lemma PrecedenceExample()
    ensures Calculation("3+4*2") == Ok(11.0)
  {
    var n3, n4, n2 := Number("3", ""), Number("4", ""), Number("2", "");
    ParenFreeBalanced("3+4*2");
    LexChain('3', '+', '4', '*', '2', "3+4*2", "4*2", "2");
    ChainOrder(n3, Sym('+'), n4, Sym('*'), n2);
    EvalPrecedenceExample();
  }

  /** Parentheses override precedence: (3+4)*2 is 14. */
  lemma ParenthesesExample()
    ensures Calculation("(3+4)*2") == Ok(14.0)
  {
    ParenFreeBalanced("3+4");
    BalancedWrap("3+4");
    ParenFreeBalanced("*2");
    assert "(3+4)*2" == (['('] + "3+4" + [')']) + "*2";
    BalancedConcat(['('] + "3+4" + [')'], "*2");
    LexBracketed('3', '+', '4', '*', '2', "(3+4)*2", "3+4)*2", "4)*2", "*2", "2");
    PostfixParenthesesExample();
    EvalParenthesesExample();
  }

  /** Equal precedence associates to the left: 10/2/5 is (10/2)/5 = 1, not
      10/(2/5) = 25. */
  lemma LeftAssociativityExample()
    ensures Calculation("10/2/5") == Ok(1.0)
  {
    var n10, n2, n5 := Number("10", ""), Number("2", ""), Number("5", "");
    ParenFreeBalanced("10/2/5");
    LexNumberChain("10", '/', '2', '/', '5', "10/2/5", "2/5", "5");
    ChainOrder(n10, Sym('/'), n2, Sym('/'), n5);
    EvalLeftAssociativityExample();
  }

  /** A fraction is read with its point: 1.5*2 is 3. */
  lemma FractionExample()
    ensures Calculation("1.5*2") == Ok(3.0)
  {
    var n15, n2 := Number("1", "5"), Number("2", "");
    ParenFreeBalanced("1.5*2");
    LexFraction('1', '5', '*', '2', "1.5*2", "*2", "2");
    PostfixOfPair(n15, Sym('*'), n2);
    EvalFractionExample();
  }

  /** Division by zero is reported, not computed: 5/0. */
  lemma DivisionByZeroExample()
    ensures Calculation("5/0") == Fail(DivisionByZero)
  {
    var n5, n0 := Number("5", ""), Number("0", "");
    ParenFreeBalanced("5/0");
    LexPair('5', '/', '0', "5/0", "0");
    PostfixOfPair(n5, Sym('/'), n0);
    EvalDivisionByZeroExample();
  }

  /** An unclosed '(' is rejected before any evaluation: (3+4. */
  lemma UnclosedExample()
    ensures Calculation("(3+4") == Fail(InvalidExpression)
  {
    ParenFreeBalanced("3+4");
    assert "(3+4" == ['('] + "3+4";
    DepthAppend(['('], "3+4");
    DepthOfChar('(');
  }

  /** A ')' before its '(' is rejected even though the counts match: )(. */
  lemma ClosedBeforeOpenedExample()
    ensures Calculation(")(") == Fail(InvalidExpression)
  {
    assert ")("[..1] == [')'];
    DepthOfChar(')');
  }

  /** Two operators in a row leave an operator without operands: 3++4. */
  lemma DoubleOperatorExample()
    ensures Calculation("3++4") == Fail(SyntaxError)
  {
    ParenFreeBalanced("3++4");
    LexDoubleSymbol('3', '+', '+', '4', "3++4", "+4", "4");
    PostfixDoubleOperatorExample();
    EvalDoubleOperatorExample();
  }

  /** There is no unary minus: -5 is a syntax error. */
  lemma UnaryMinusExample()
    ensures Calculation("-5") == Fail(SyntaxError)
  {
    var n5 := Number("5", "");
    ParenFreeBalanced("-5");
    LexDigit('5', "5");
    LexSymbolThen('-', "5", "-5");
    ScanSnoc([], Sym('-'));
    assert [] + [Sym('-')] == [Sym('-')];
    ScanSnoc([Sym('-')], n5);
    assert [Sym('-')] + [n5] == [Sym('-'), n5];
    assert Postfix([Sym('-'), n5]) == [n5, Sym('-')];
    Digit('5', 5.0);
    RunLast(Ok([]), [n5], Sym('-'), [5.0]);
    assert [n5] + [Sym('-')] == [n5, Sym('-')];
  }

  // ---------------------------------------------------------------------------
  // Lexing the shapes above, for any digits. Each lemma names the string it
  // lexes, so that only one layer of the lexer is unfolded at a time.

  lemma LexDigit(d: char, s: string)
    requires IsDigit(d) && s == [d]
    ensures Lex(s) == [Number([d], "")]
  {
    LexWholeNumber([d], "");
    assert [d] + "" == [d];
  }

  lemma LexDigitThen(d: char, c: char, rest: string, s: string)
    requires IsDigit(d) && IsSymbol(c) && s == [d, c] + rest
    ensures Lex(s) == [Number([d], ""), Sym(c)] + Lex(rest)
  {
    assert s == [d] + [c] + rest;
    LexWholeThenSymbol([d], c, rest);
  }

  lemma LexSymbolThen(c: char, rest: string, s: string)
    requires IsSymbol(c) && s == [c] + rest
    ensures Lex(s) == [Sym(c)] + Lex(rest)
  {
    LexSymbol(c, rest);
  }

  /** `w p b q c` with a numeral `w` of any length. */
  lemma LexNumberChain(w: string, p: char, b: char, q: char, c: char, s: string, t: string, u: string)
    requires w != [] && AllDigits(w) && IsDigit(b) && IsDigit(c) && IsSymbol(p) && IsSymbol(q)
    requires s == w + [p] + t && t == [b, q] + u && u == [c]
    ensures Lex(s) == [Number(w, ""), Sym(p), Number([b], ""), Sym(q), Number([c], "")]
  {
    LexPair(b, q, c, t, u);
    LexWholeThenSymbol(w, p, t);
    assert [Number(w, ""), Sym(p)] + [Number([b], ""), Sym(q), Number([c], "")]
      == [Number(w, ""), Sym(p), Number([b], ""), Sym(q), Number([c], "")];
  }

  /** `a p b`. */
  lemma LexPair(a: char, p: char, b: char, s: string, t: string)
    requires IsDigit(a) && IsDigit(b) && IsSymbol(p)
    requires s == [a, p] + t && t == [b]
    ensures Lex(s) == [Number([a], ""), Sym(p), Number([b], "")]
  {
    LexDigit(b, t);
    LexDigitThen(a, p, t, s);
  }

  /** `a p b q c`. */
  lemma LexChain(a: char, p: char, b: char, q: char, c: char, s: string, t: string, u: string)
    requires IsDigit(a) && IsDigit(b) && IsDigit(c) && IsSymbol(p) && IsSymbol(q)
    requires s == [a, p] + t && t == [b, q] + u && u == [c]
    ensures Lex(s) == [Number([a], ""), Sym(p), Number([b], ""), Sym(q), Number([c], "")]
  {
    LexPair(b, q, c, t, u);
    LexDigitThen(a, p, t, s);
  }

  /** `(a p b) q c`. */
  lemma LexBracketed(a: char, p: char, b: char, q: char, c: char,
                     s: string, t: string, u: string, v: string, w: string)
    requires IsDigit(a) && IsDigit(b) && IsDigit(c) && IsSymbol(p) && IsSymbol(q)
    requires s == ['('] + t && t == [a, p] + u && u == [b, ')'] + v && v == [q] + w && w == [c]
    ensures Lex(s) == [Open] + [Number([a], ""), Sym(p), Number([b], ""), Close, Sym(q), Number([c], "")]
  {
    LexChainClose(a, p, b, q, c, t, u, v, w);
    LexSymbolThen('(', t, s);
  }

  /** `a p b) q c`. */
  lemma LexChainClose(a: char, p: char, b: char, q: char, c: char,
                      t: string, u: string, v: string, w: string)
    requires IsDigit(a) && IsDigit(b) && IsDigit(c) && IsSymbol(p) && IsSymbol(q)
    requires t == [a, p] + u && u == [b, ')'] + v && v == [q] + w && w == [c]
    ensures Lex(t) == [Number([a], ""), Sym(p), Number([b], ""), Close, Sym(q), Number([c], "")]
  {
    LexCloseTail(b, q, c, u, v, w);
    LexDigitThen(a, p, u, t);
  }

  /** `b) q c`. */
  lemma LexCloseTail(b: char, q: char, c: char, s: string, t: string, u: string)
    requires IsDigit(b) && IsDigit(c) && IsSymbol(q)
    requires s == [b, ')'] + t && t == [q] + u && u == [c]
    ensures Lex(s) == [Number([b], ""), Close, Sym(q), Number([c], "")]
  {
    LexSymbolDigit(q, c, t, u);
    LexDigitThen(b, ')', t, s);
  }

  /** `q c`. */
  lemma LexSymbolDigit(q: char, c: char, s: string, t: string)
    requires IsDigit(c) && IsSymbol(q)
    requires s == [q] + t && t == [c]
    ensures Lex(s) == [Sym(q), Number([c], "")]
  {
    LexDigit(c, t);
    LexSymbolThen(q, t, s);
  }

  /** `a.f q c`. */
  lemma LexFraction(a: char, f: char, q: char, c: char, s: string, t: string, u: string)
    requires IsDigit(a) && IsDigit(f) && IsDigit(c) && IsSymbol(q)
    requires s == [a] + ("." + [f]) + t && t == [q] + u && u == [c]
    ensures Lex(s) == [Number([a], [f]), Sym(q), Number([c], "")]
  {
    LexSymbolDigit(q, c, t, u);
    LexFractionalNumber([a], [f], t);
  }

  /** `a p q b`. */
  lemma LexDoubleSymbol(a: char, p: char, q: char, b: char, s: string, t: string, u: string)
    requires IsDigit(a) && IsDigit(b) && IsSymbol(p) && IsSymbol(q)
    requires s == [a, p] + t && t == [q] + u && u == [b]
    ensures Lex(s) == [Number([a], ""), Sym(p), Sym(q), Number([b], "")]
  {
    LexSymbolDigit(q, b, t, u);
    LexDigitThen(a, p, t, s);
  }

  // ---------------------------------------------------------------------------
  // Conversion and evaluation of the shapes above.

  /** A numeral of one digit and no fraction. */
  lemma Digit(d: char, v: real)
    requires IsDigit(d) && v == (d - '0') as real
    ensures Operands([Number([d], "")]) == Ok([v])
  {
    assert [d][..0] == [];
    SingleNumber(Number([d], ""));
  }

  /** `x op y` becomes `x y op`. */
  lemma PostfixOfPair(x: Token, op: Token, y: Token)
    requires x.Number? && y.Number? && IsOperator(op)
    ensures Postfix([x, op, y]) == [x, y, op]
  {
    ScanSnoc([], x);
    assert [] + [x] == [x];
    ScanSnoc([x], op);
    assert [x] + [op] == [x, op];
    ScanSnoc([x, op], y);
    assert [x, op] + [y] == [x, op, y];
  }

  lemma EvalPrecedenceExample()
    ensures EvalPostfix([Number("3", ""), Number("4", ""), Number("2", ""), Sym('*'), Sym('+')]) == Ok(11.0)
  {
    var n3, n4, n2 := Number("3", ""), Number("4", ""), Number("2", "");
    Digit('3', 3.0);
    Digit('4', 4.0);
    Digit('2', 2.0);
    OperandOrder([n4], [n2], '*', 4.0, 2.0);
    assert [n4] + [n2] + [Sym('*')] == [n4, n2, Sym('*')];
    assert Apply('*', 4.0, 2.0) == 8.0;
    OperandOrder([n3], [n4, n2, Sym('*')], '+', 3.0, 8.0);
    assert [n3] + [n4, n2, Sym('*')] + [Sym('+')] == [n3, n4, n2, Sym('*'), Sym('+')];
  }

  lemma PostfixParenthesesExample()
    ensures Postfix([Open] + [Number("3", ""), Sym('+'), Number("4", ""), Close, Sym('*'), Number("2", "")]) ==
      [Number("3", ""), Number("4", ""), Sym('+'), Number("2", ""), Sym('*')]
  {
    var n3, n4, n2 := Number("3", ""), Number("4", ""), Number("2", "");
    assert [Open] + [n3, Sym('+'), n4, Close, Sym('*'), n2] == [Open, n3, Sym('+'), n4, Close, Sym('*'), n2];
    ScanParenthesesExample();
    ScanSnoc([Open, n3, Sym('+'), n4, Close], Sym('*'));
    assert [Open, n3, Sym('+'), n4, Close] + [Sym('*')] == [Open, n3, Sym('+'), n4, Close, Sym('*')];
    ScanSnoc([Open, n3, Sym('+'), n4, Close, Sym('*')], n2);
    assert [Open, n3, Sym('+'), n4, Close, Sym('*')] + [n2] == [Open, n3, Sym('+'), n4, Close, Sym('*'), n2];
  }

  lemma ScanParenthesesExample()
    ensures Scan([Open, Number("3", ""), Sym('+'), Number("4", ""), Close]) ==
      State([], [Number("3", ""), Number("4", ""), Sym('+')])
  {
    var n3, n4 := Number("3", ""), Number("4", "");
    ScanOpenExample();
    ScanSnoc([Open, n3, Sym('+')], n4);
    assert [Open, n3, Sym('+')] + [n4] == [Open, n3, Sym('+'), n4];
    assert [n3] + [n4] == [n3, n4];
    ScanSnoc([Open, n3, Sym('+'), n4], Close);
    assert [Open, n3, Sym('+'), n4] + [Close] == [Open, n3, Sym('+'), n4, Close];
    assert [Sym('+'), Open][1..] == [Open] && [n3, n4] + [Sym('+')] == [n3, n4, Sym('+')];
    assert PopToOpen([Sym('+'), Open], [n3, n4]) == State([Open], [n3, n4, Sym('+')]);
  }

  lemma ScanOpenExample()
    ensures Scan([Open, Number("3", ""), Sym('+')]) == State([Sym('+'), Open], [Number("3", "")])
  {
    var n3 := Number("3", "");
    ScanSnoc([], Open);
    assert [] + [Open] == [Open];
    ScanSnoc([Open], n3);
    assert [Open] + [n3] == [Open, n3];
    ScanSnoc([Open, n3], Sym('+'));
    assert [Open, n3] + [Sym('+')] == [Open, n3, Sym('+')];
    assert PopAtLeast([Open], [n3], 1) == State([Open], [n3]);
  }

  lemma EvalParenthesesExample()
    ensures EvalPostfix([Number("3", ""), Number("4", ""), Sym('+'), Number("2", ""), Sym('*')]) == Ok(14.0)
  {
    var n3, n4, n2 := Number("3", ""), Number("4", ""), Number("2", "");
    Digit('3', 3.0);
    Digit('4', 4.0);
    Digit('2', 2.0);
    OperandOrder([n3], [n4], '+', 3.0, 4.0);
    assert [n3] + [n4] + [Sym('+')] == [n3, n4, Sym('+')];
    OperandOrder([n3, n4, Sym('+')], [n2], '*', 7.0, 2.0);
    assert [n3, n4, Sym('+')] + [n2] + [Sym('*')] == [n3, n4, Sym('+'), n2, Sym('*')];
  }

  lemma EvalLeftAssociativityExample()
    ensures EvalPostfix([Number("10", ""), Number("2", ""), Sym('/'), Number("5", ""), Sym('/')]) == Ok(1.0)
  {
    var n10, n2, n5 := Number("10", ""), Number("2", ""), Number("5", "");
    Ten();
    Digit('2', 2.0);
    Digit('5', 5.0);
    OperandOrder([n10], [n2], '/', 10.0, 2.0);
    assert [n10] + [n2] + [Sym('/')] == [n10, n2, Sym('/')];
    OperandOrder([n10, n2, Sym('/')], [n5], '/', 5.0, 5.0);
    assert [n10, n2, Sym('/')] + [n5] + [Sym('/')] == [n10, n2, Sym('/'), n5, Sym('/')];
  }

  /** The numeral 10. */
  lemma Ten()
    ensures Operands([Number("10", "")]) == Ok([10.0])
  {
    assert "10"[..1] == "1" && "1"[..0] == [];
    assert DigitsValue("10") == 10;
    SingleNumber(Number("10", ""));
  }

  lemma EvalDivisionByZeroExample()
    ensures EvalPostfix([Number("5", ""), Number("0", ""), Sym('/')]) == Fail(DivisionByZero)
  {
    var n5, n0 := Number("5", ""), Number("0", "");
    Digit('5', 5.0);
    Digit('0', 0.0);
    OperandOrder([n5], [n0], '/', 5.0, 0.0);
    assert [n5] + [n0] + [Sym('/')] == [n5, n0, Sym('/')];
  }

  lemma EvalDoubleOperatorExample()
    ensures EvalPostfix([Number("3", ""), Sym('+'), Number("4", ""), Sym('+')]) == Fail(SyntaxError)
  {
    var n3, n4 := Number("3", ""), Number("4", "");
    Digit('3', 3.0);
    RunLast(Ok([]), [n3], Sym('+'), [3.0]);
    assert [n3] + [Sym('+')] == [n3, Sym('+')];
    assert [n3, Sym('+'), n4, Sym('+')][..2] == [n3, Sym('+')];
    assert Operands([n3, Sym('+')]) == Fail(SyntaxError);
    FailurePrefix([n3, Sym('+'), n4, Sym('+')], 2, SyntaxError);
  }

  lemma EvalFractionExample()
    ensures EvalPostfix([Number("1", "5"), Number("2", ""), Sym('*')]) == Ok(3.0)
  {
    var n15, n2 := Number("1", "5"), Number("2", "");
    SingleNumber(n15);
    assert "1"[..0] == [] && "5"[..0] == [];
    assert NumberValue(n15) == 1.5;
    Digit('2', 2.0);
    OperandOrder([n15], [n2], '*', 1.5, 2.0);
    assert [n15] + [n2] + [Sym('*')] == [n15, n2, Sym('*')];
  }

  lemma PostfixDoubleOperatorExample()
    ensures Postfix([Number("3", ""), Sym('+'), Sym('+'), Number("4", "")]) ==
      [Number("3", ""), Sym('+'), Number("4", ""), Sym('+')]
  {
    var n3, n4 := Number("3", ""), Number("4", "");
    ScanDoubleOperatorExample();
    ScanSnoc([n3, Sym('+'), Sym('+')], n4);
    assert [n3, Sym('+'), Sym('+')] + [n4] == [n3, Sym('+'), Sym('+'), n4];
  }

  /** The second '+' unstacks the first. */
  lemma ScanDoubleOperatorExample()
    ensures Scan([Number("3", ""), Sym('+'), Sym('+')]) == State([Sym('+')], [Number("3", ""), Sym('+')])
  {
    var n3 := Number("3", "");
    ScanSnoc([], n3);
    assert [] + [n3] == [n3];
    ScanSnoc([n3], Sym('+'));
    assert [n3] + [Sym('+')] == [n3, Sym('+')];
    assert Scan([n3, Sym('+')]) == State([Sym('+')], [n3]);
    ScanSnoc([n3, Sym('+')], Sym('+'));
    assert [n3, Sym('+')] + [Sym('+')] == [n3, Sym('+'), Sym('+')];
    assert PopAtLeast([Sym('+')], [n3], 1) == State([], [n3, Sym('+')]);
  }
}
