/** The calculator engine: parenthesis check, shunting-yard conversion and
    postfix evaluation, each written over the linked stack and each proved to
    compute the corresponding function of the value-level model. */
module Engine {
  import opened Outcomes
  import opened LinkedStack
  import opened Parens
  import opened Lexer
  import opened ShuntingYard
  import opened PostfixEval
  import opened Calculator

  class CalculatorEngine {
    /** Duration of the last successful calculation, in clock ticks. */
    var executionTime: int

    constructor ()
      ensures executionTime == 0
    {
      executionTime := 0;
    }

    /** Scans the characters once with a stack of pending '(': an unmatched
        ')' rejects at once, and the input is valid when nothing is left open. */
    method IsValidExpression(expression: string) returns (valid: bool)
      ensures valid == Balanced(expression)
    {
      var checkStack := new MyStack<char>();
      var i := 0;
      while i < |expression|
        invariant 0 <= i <= |expression|
        invariant checkStack.Valid() && fresh(checkStack.Repr)
        invariant |checkStack.contents| == Depth(expression[..i])
        invariant NeverNegative(expression[..i])
      {
        var c := expression[i];
        assert expression[..i + 1] == expression[..i] + [c];
        DepthAppend(expression[..i], [c]);
        DepthOfChar(c);
        if c == '(' {
          checkStack.Push(c);
        } else if c == ')' {
          if checkStack.IsEmpty() {
            assert Depth(expression[..i + 1]) < 0;
            return false;
          }
          var discarded := checkStack.Pop();
        }
        NeverNegativeSnoc(expression[..i], c);
        i := i + 1;
      }
      assert expression[..i] == expression;
      valid := checkStack.IsEmpty();
    }

    /** Converts the tokens of `expression` to postfix. Output is pushed onto
        `outputQueue` as it is produced, so that stack holds it backwards; it
        is then reversed into `outputFinal`, whose top is the first postfix
        token. */
    method InfixToPostfix(expression: string) returns (outputFinal: MyStack<Token>)
      ensures outputFinal.Valid() && fresh(outputFinal.Repr)
      ensures outputFinal.contents == Postfix(Lex(expression))
    {
      var outputQueue := new MyStack<Token>();
      var opStack := new MyStack<Token>();
      var tokens := Lex(expression);
      ghost var emitted: seq<Token> := [];

      for i := 0 to |tokens|
        invariant outputQueue.Valid() && fresh(outputQueue.Repr)
        invariant opStack.Valid() && fresh(opStack.Repr)
        invariant outputQueue.Repr !! opStack.Repr
        invariant outputQueue.contents == Reverse(emitted)
        invariant State(opStack.contents, emitted) == Scan(tokens[..i])
      {
        assert tokens[..i + 1][..i] == tokens[..i];
        emitted := ConvertToken(tokens[i], opStack, outputQueue, emitted);
      }

      assert tokens[..|tokens|] == tokens;
      outputFinal := FlushAndReverse(opStack, outputQueue, emitted);
    }

    /** Drains `postfixReverse` into a list, then evaluates it with an operand
        stack: a number is pushed; anything else needs two operands, pops the
        right one and then the left one, and pushes the result for `+ - * /`. */
    method EvaluatePostfix(postfixReverse: MyStack<Token>) returns (r: Result<real>)
      requires postfixReverse.Valid()
      modifies postfixReverse
      ensures postfixReverse.Valid() && postfixReverse.Repr == old(postfixReverse.Repr)
      ensures postfixReverse.contents == []
      ensures r == EvalPostfix(old(postfixReverse.contents))
    {
      var tokens := Drain(postfixReverse);
      var stack := new MyStack<real>();
      for i := 0 to |tokens|
        invariant stack.Valid() && fresh(stack.Repr)
        invariant postfixReverse.Valid() && postfixReverse.Repr == old(postfixReverse.Repr)
        invariant postfixReverse.contents == []
        invariant Operands(tokens[..i]) == Ok(stack.contents)
      {
        var token := tokens[i];
        assert tokens[..i + 1] == tokens[..i] + [token];
        RunLast(Ok([]), tokens[..i], token, stack.contents);
        var step := EvalToken(stack, token);
        if step.Fail? {
          FailurePrefix(tokens, i + 1, step.error);
          return Fail(step.error);
        }
      }
      assert tokens[..|tokens|] == tokens;
      if stack.Count() > 0 {
        var top := stack.Pop();
        r := Ok(top.value);
      } else {
        r := Ok(0.0);
      }
    }

    /** Validates, converts and evaluates `expression`. `elapsed` is the
        stopwatch reading taken when the evaluation finishes; it is recorded
        only when the calculation succeeds. */
    method Calculate(expression: string, elapsed: int) returns (r: Result<real>)
      modifies this
      ensures r == Calculation(expression)
      ensures executionTime == if r.Ok? then elapsed else old(executionTime)
    {
      var valid := IsValidExpression(expression);
      if !valid {
        return Fail(InvalidExpression);
      }
      var postfix := InfixToPostfix(expression);
      r := EvaluatePostfix(postfix);
      if r.Ok? {
        executionTime := elapsed;
      }
    }
  }

  /** Calculating the same expression twice gives the same outcome both times:
      the only state a call leaves behind is the timing field, and no result
      depends on it. */
  method CalculateTwice(engine: CalculatorEngine, expression: string, elapsed1: int, elapsed2: int)
    returns (r1: Result<real>, r2: Result<real>)
    modifies engine
    ensures r1 == r2 == Calculation(expression)
  {
    r1 := engine.Calculate(expression, elapsed1);
    r2 := engine.Calculate(expression, elapsed2);
  }

  /** The list the evaluator walks: `s` popped until empty, in pop order. */
  method Drain<T>(s: MyStack<T>) returns (xs: seq<T>)
    requires s.Valid()
    modifies s
    ensures s.Valid() && s.Repr == old(s.Repr) && s.contents == []
    ensures xs == old(s.contents)
  {
    xs := [];
    while !s.IsEmpty()
      invariant s.Valid() && s.Repr == old(s.Repr)
      invariant xs + s.contents == old(s.contents)
      decreases |s.contents|
    {
      ghost var rest := s.contents;
      var popped := s.Pop();
      assert (xs + [popped.value]) + s.contents == xs + rest;
      xs := xs + [popped.value];
    }
  }

  /** One pass of the evaluation loop on the operand stack: the outcome is
      that of `EvalStep`, and on success the stack holds its new operands. The
      source throws where this returns a failure. */
  method EvalToken(stack: MyStack<real>, token: Token) returns (r: Result<()>)
    requires stack.Valid()
    modifies stack
    ensures stack.Valid() && fresh(stack.Repr - old(stack.Repr))
    ensures r.Ok? ==> EvalStep(old(stack.contents), token) == Ok(stack.contents)
    ensures r.Fail? ==> EvalStep(old(stack.contents), token) == Fail(r.error)
  {
    if token.Number? {
      stack.Push(NumberValue(token));
      return Ok(());
    }
    if stack.Count() < 2 {
      return Fail(SyntaxError);
    }
    ghost var operands := stack.contents;
    var val2 := stack.Pop();
    var val1 := stack.Pop();
    assert val2.value == operands[0] && val1.value == operands[1];
    assert stack.contents == operands[2..];
    if token == Sym('+') {
      stack.Push(val1.value + val2.value);
      assert stack.contents == [Apply('+', operands[1], operands[0])] + operands[2..];
    } else if token == Sym('-') {
      stack.Push(val1.value - val2.value);
      assert stack.contents == [Apply('-', operands[1], operands[0])] + operands[2..];
    } else if token == Sym('*') {
      stack.Push(val1.value * val2.value);
      assert stack.contents == [val1.value * val2.value] + operands[2..];
      assert Apply('*', operands[1], operands[0]) == val1.value * val2.value;
      assert stack.contents == [Apply('*', operands[1], operands[0])] + operands[2..];
    } else if token == Sym('/') {
      if val2.value == 0.0 {
        return Fail(DivisionByZero);
      }
      stack.Push(val1.value / val2.value);
      assert stack.contents == [Apply('/', operands[1], operands[0])] + operands[2..];
    }
    r := Ok(());
  }

  /** One pass of the conversion loop: a number goes to the output, '(' is
      stacked, ')' unstacks down to its '(' and drops it, and an operator
      first unstacks every operator that binds at least as tightly. */
  method ConvertToken(token: Token, opStack: MyStack<Token>, outputQueue: MyStack<Token>, ghost emitted: seq<Token>)
    returns (ghost emitted': seq<Token>)
    requires opStack.Valid() && outputQueue.Valid() && opStack.Repr !! outputQueue.Repr
    requires outputQueue.contents == Reverse(emitted)
    modifies opStack, outputQueue
    ensures opStack.Valid() && fresh(opStack.Repr - old(opStack.Repr))
    ensures outputQueue.Valid() && fresh(outputQueue.Repr - old(outputQueue.Repr))
    ensures opStack.Repr !! outputQueue.Repr
    ensures outputQueue.contents == Reverse(emitted')
    ensures State(opStack.contents, emitted') == Step(State(old(opStack.contents), emitted), token)
  {
    if token.Number? {
      outputQueue.Push(token);
      ReverseSnoc(emitted, token);
      emitted' := emitted + [token];
    } else if token == Open {
      opStack.Push(token);
      emitted' := emitted;
    } else if token == Close {
      emitted' := CloseGroup(opStack, outputQueue, emitted);
    } else {
      emitted' := StackOperator(token, opStack, outputQueue, emitted);
    }
  }

  /** The ')' branch: unstack down to the nearest '(' and discard it, if there is one. */
  method CloseGroup(opStack: MyStack<Token>, outputQueue: MyStack<Token>, ghost emitted: seq<Token>)
    returns (ghost emitted': seq<Token>)
    requires opStack.Valid() && outputQueue.Valid() && opStack.Repr !! outputQueue.Repr
    requires outputQueue.contents == Reverse(emitted)
    modifies opStack, outputQueue
    ensures opStack.Valid() && opStack.Repr == old(opStack.Repr)
    ensures outputQueue.Valid() && fresh(outputQueue.Repr - old(outputQueue.Repr))
    ensures opStack.Repr !! outputQueue.Repr
    ensures outputQueue.contents == Reverse(emitted')
    ensures State(opStack.contents, emitted') == Step(State(old(opStack.contents), emitted), Close)
  {
    emitted' := MoveUntilOpen(opStack, outputQueue, emitted);
    if !opStack.IsEmpty() {
      var discarded := opStack.Pop();
    }
  }

  /** The operator branch: unstack everything that binds at least as tightly,
      then stack the operator. */
  method StackOperator(token: Token, opStack: MyStack<Token>, outputQueue: MyStack<Token>, ghost emitted: seq<Token>)
    returns (ghost emitted': seq<Token>)
    requires !token.Number? && token != Open && token != Close
    requires opStack.Valid() && outputQueue.Valid() && opStack.Repr !! outputQueue.Repr
    requires outputQueue.contents == Reverse(emitted)
    modifies opStack, outputQueue
    ensures opStack.Valid() && fresh(opStack.Repr - old(opStack.Repr))
    ensures outputQueue.Valid() && fresh(outputQueue.Repr - old(outputQueue.Repr))
    ensures opStack.Repr !! outputQueue.Repr
    ensures outputQueue.contents == Reverse(emitted')
    ensures State(opStack.contents, emitted') == Step(State(old(opStack.contents), emitted), token)
  {
    emitted' := MoveWhileAtLeast(opStack, outputQueue, GetPrecedence(token), emitted);
    opStack.Push(token);
  }

  /** After the last token: the operators still stacked are emitted top first,
      and the reversed output is popped onto a new stack, whose top is then the
      first postfix token. */
  method FlushAndReverse<T>(opStack: MyStack<T>, outputQueue: MyStack<T>, ghost emitted: seq<T>)
    returns (outputFinal: MyStack<T>)
    requires opStack.Valid() && outputQueue.Valid() && opStack.Repr !! outputQueue.Repr
    requires outputQueue.contents == Reverse(emitted)
    modifies opStack, outputQueue
    ensures opStack.Valid() && opStack.Repr == old(opStack.Repr) && opStack.contents == []
    ensures outputQueue.Valid() && outputQueue.contents == []
    ensures outputFinal.Valid() && fresh(outputFinal.Repr)
    ensures outputFinal.contents == emitted + old(opStack.contents)
  {
    ghost var rest := opStack.contents;
    MoveAll(opStack, outputQueue);
    ReverseAppend(emitted, rest);
    outputFinal := new MyStack<T>();
    MoveAll(outputQueue, outputFinal);
    ReverseInvolutive(emitted + rest);
    assert outputFinal.contents == Reverse(Reverse(emitted + rest)) + [];
  }

  /** The loop run on ')': operators move from `opStack` to `outputQueue`
      until a '(' is on top or the stack is empty. */
  method MoveUntilOpen(opStack: MyStack<Token>, outputQueue: MyStack<Token>, ghost emitted: seq<Token>)
    returns (ghost emitted': seq<Token>)
    requires opStack.Valid() && outputQueue.Valid() && opStack.Repr !! outputQueue.Repr
    requires outputQueue.contents == Reverse(emitted)
    modifies opStack, outputQueue
    ensures opStack.Valid() && opStack.Repr == old(opStack.Repr)
    ensures outputQueue.Valid() && fresh(outputQueue.Repr - old(outputQueue.Repr))
    ensures opStack.Repr !! outputQueue.Repr
    ensures outputQueue.contents == Reverse(emitted')
    ensures State(opStack.contents, emitted') == PopToOpen(old(opStack.contents), emitted)
  {
    emitted' := emitted;
    while !opStack.IsEmpty() && opStack.Peek().value != Open
      invariant opStack.Valid() && opStack.Repr == old(opStack.Repr)
      invariant outputQueue.Valid() && fresh(outputQueue.Repr - old(outputQueue.Repr))
      invariant opStack.Repr !! outputQueue.Repr
      invariant outputQueue.contents == Reverse(emitted')
      invariant PopToOpen(opStack.contents, emitted') == PopToOpen(old(opStack.contents), emitted)
      decreases |opStack.contents|
    {
      var moved := MoveTop(opStack, outputQueue);
      ReverseSnoc(emitted', moved);
      emitted' := emitted' + [moved];
    }
  }

  /** The loop run on an operator of precedence `p`: operators move from
      `opStack` to `outputQueue` while the top has precedence at least `p`. */
  method MoveWhileAtLeast(opStack: MyStack<Token>, outputQueue: MyStack<Token>, p: nat, ghost emitted: seq<Token>)
    returns (ghost emitted': seq<Token>)
    requires opStack.Valid() && outputQueue.Valid() && opStack.Repr !! outputQueue.Repr
    requires outputQueue.contents == Reverse(emitted)
    modifies opStack, outputQueue
    ensures opStack.Valid() && opStack.Repr == old(opStack.Repr)
    ensures outputQueue.Valid() && fresh(outputQueue.Repr - old(outputQueue.Repr))
    ensures opStack.Repr !! outputQueue.Repr
    ensures outputQueue.contents == Reverse(emitted')
    ensures State(opStack.contents, emitted') == PopAtLeast(old(opStack.contents), emitted, p)
  {
    emitted' := emitted;
    while !opStack.IsEmpty() && GetPrecedence(opStack.Peek().value) >= p
      invariant opStack.Valid() && opStack.Repr == old(opStack.Repr)
      invariant outputQueue.Valid() && fresh(outputQueue.Repr - old(outputQueue.Repr))
      invariant opStack.Repr !! outputQueue.Repr
      invariant outputQueue.contents == Reverse(emitted')
      invariant PopAtLeast(opStack.contents, emitted', p) == PopAtLeast(old(opStack.contents), emitted, p)
      decreases |opStack.contents|
    {
      var moved := MoveTop(opStack, outputQueue);
      ReverseSnoc(emitted', moved);
      emitted' := emitted' + [moved];
    }
  }

  /** Pops `from` until it is empty, pushing each element onto `to`: the
      elements land on `to` in reverse order. */
  method MoveAll<T>(from: MyStack<T>, to: MyStack<T>)
    requires from.Valid() && to.Valid() && from.Repr !! to.Repr
    modifies from, to
    ensures from.Valid() && from.Repr == old(from.Repr) && from.contents == []
    ensures to.Valid() && fresh(to.Repr - old(to.Repr))
    ensures from.Repr !! to.Repr
    ensures to.contents == Reverse(old(from.contents)) + old(to.contents)
  {
    while !from.IsEmpty()
      invariant from.Valid() && from.Repr == old(from.Repr)
      invariant to.Valid() && fresh(to.Repr - old(to.Repr))
      invariant from.Repr !! to.Repr
      invariant Reverse(from.contents) + to.contents == Reverse(old(from.contents)) + old(to.contents)
      decreases |from.contents|
    {
      ghost var rest, done := from.contents, to.contents;
      var moved := MoveTop(from, to);
      assert Reverse(rest) == Reverse(from.contents) + [moved];
      assert Reverse(from.contents) + to.contents == (Reverse(from.contents) + [moved]) + done;
    }
  }

  /** `to.Push(from.Pop())` on a non-empty `from`: the top of one stack
      becomes the top of the other. */
  method MoveTop<T>(from: MyStack<T>, to: MyStack<T>) returns (moved: T)
    requires from.Valid() && to.Valid() && from.Repr !! to.Repr
    requires from.contents != []
    modifies from, to
    ensures from.Valid() && from.Repr == old(from.Repr)
    ensures to.Valid() && fresh(to.Repr - old(to.Repr))
    ensures from.Repr !! to.Repr
    ensures moved == old(from.contents)[0]
    ensures from.contents == old(from.contents)[1..]
    ensures to.contents == [moved] + old(to.contents)
  {
    var r := from.Pop();
    moved := r.value;
    to.Push(moved);
  }
}
