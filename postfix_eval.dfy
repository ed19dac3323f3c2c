/** Evaluation of a postfix token sequence with an operand stack (top first). */
module PostfixEval {
  import opened Outcomes
  import opened Lexer

  /** What the evaluator does with one token: a number is pushed; any other
      token needs two operands, takes `val2` from the top and `val1` from below
      it, and pushes `val1 op val2`. A token that is none of `+ - * /` consumes
      its two operands and pushes nothing. */
  function EvalStep(stack: seq<real>, t: Token): (r: Result<seq<real>>)
    ensures r.Fail? ==> r.error == SyntaxError || r.error == DivisionByZero
  {
    if t.Number? then Ok([NumberValue(t)] + stack)
    else if |stack| < 2 then Fail(SyntaxError)
    else if t == Sym('/') && stack[0] == 0.0 then Fail(DivisionByZero)
    else if IsOperator(t) then Ok([Apply(t.c, stack[1], stack[0])] + stack[2..])
    else Ok(stack[2..])
  }

  /** `val1 op val2` for the four operators. */
  function Apply(op: char, val1: real, val2: real): real
    requires op == '/' ==> val2 != 0.0
  {
    if op == '+' then val1 + val2
    else if op == '-' then val1 - val2
    else if op == '*' then val1 * val2
    else if op == '/' then val1 / val2
    else 0.0
  }

  /** Evaluation of `ts` from an initial outcome; a failure is never undone. */
  function Run(init: Result<seq<real>>, ts: seq<Token>): Result<seq<real>> {
    if ts == [] then init
    else
      match Run(init, ts[..|ts| - 1])
      case Fail(e) => Fail(e)
      case Ok(stack) => EvalStep(stack, ts[|ts| - 1])
  }

  /** The operand stack after evaluating `ts` from an empty stack. */
  function Operands(ts: seq<Token>): Result<seq<real>> {
    Run(Ok([]), ts)
  }

  /** The value of a postfix sequence: the top of the operand stack, or 0 when
      the stack ends empty; evaluation fails only with a syntax error or a
      division by zero. */
  function EvalPostfix(ts: seq<Token>): (r: Result<real>)
    ensures ts == [] ==> r == Ok(0.0)
    ensures r.Fail? ==> r.error == SyntaxError || r.error == DivisionByZero
  {
    RunErrors(Ok([]), ts);
    match Operands(ts)
    case Fail(e) => Fail(e)
    case Ok(stack) => Ok(if |stack| > 0 then stack[0] else 0.0)
  }

  /** Evaluation itself fails only with SyntaxError or DivisionByZero. */
  lemma {:induction false} RunErrors(init: Result<seq<real>>, ts: seq<Token>)
    ensures var r := Run(init, ts);
      r.Fail? ==> r == init || r.error == SyntaxError || r.error == DivisionByZero
  {
    if ts != [] {
      RunErrors(init, ts[..|ts| - 1]);
    }
  }

  /** Once an error is raised the remaining tokens are not looked at. */
  lemma {:induction false} FailureAborts(e: CalcError, ts: seq<Token>)
    ensures Run(Fail(e), ts) == Fail(e)
  {
    if ts != [] {
      FailureAborts(e, ts[..|ts| - 1]);
    }
  }

  /** Evaluating `a + b` is evaluating `a` and then `b` from where `a` left off. */
  lemma {:induction false} RunAppend(init: Result<seq<real>>, a: seq<Token>, b: seq<Token>)
    ensures Run(init, a + b) == Run(Run(init, a), b)
  {
    if b == [] {
      assert a + b == a;
    } else {
      assert (a + b)[..|a + b| - 1] == a + b[..|b| - 1];
      RunAppend(init, a, b[..|b| - 1]);
    }
  }

  /** A failure on a prefix is the failure of the whole sequence. */
  lemma FailurePrefix(ts: seq<Token>, n: nat, e: CalcError)
    requires n <= |ts| && Operands(ts[..n]) == Fail(e)
    ensures EvalPostfix(ts) == Fail(e)
  {
    assert ts == ts[..n] + ts[n..];
    RunAppend(Ok([]), ts[..n], ts[n..]);
    FailureAborts(e, ts[n..]);
  }

  /** A sequence that evaluates without help from an empty stack evaluates the
      same way on top of any stack, leaving what lies below untouched. */
  lemma {:induction false} RunOnTop(ts: seq<Token>, below: seq<real>, s: seq<real>)
    requires Operands(ts) == Ok(s)
    ensures Run(Ok(below), ts) == Ok(s + below)
  {
    if ts == [] {
      assert s == [];
      assert s + below == below;
    } else {
      var pre, t := ts[..|ts| - 1], ts[|ts| - 1];
      var r := Operands(pre);
      assert r.Ok?;
      RunOnTop(pre, below, r.value);
      assert Operands(ts) == EvalStep(r.value, t);
      StepOnTop(r.value, below, t, s);
      assert Run(Ok(below), ts) == EvalStep(r.value + below, t);
    }
  }

  lemma StepOnTop(stack: seq<real>, below: seq<real>, t: Token, s: seq<real>)
    requires EvalStep(stack, t) == Ok(s)
    ensures EvalStep(stack + below, t) == Ok(s + below)
  {
    var whole := stack + below;
    if t.Number? {
      assert s == [NumberValue(t)] + stack;
      assert [NumberValue(t)] + whole == s + below;
    } else {
      assert |stack| >= 2;
      assert whole[0] == stack[0] && whole[1] == stack[1];
      assert whole[2..] == stack[2..] + below;
      if IsOperator(t) {
        var v := Apply(t.c, stack[1], stack[0]);
        assert s == [v] + stack[2..];
        assert [v] + whole[2..] == s + below;
      } else {
        assert s == stack[2..];
      }
    }
  }

  lemma RunLast(init: Result<seq<real>>, ts: seq<Token>, t: Token, stack: seq<real>)
    requires Run(init, ts) == Ok(stack)
    ensures Run(init, ts + [t]) == EvalStep(stack, t)
  {
    assert (ts + [t])[..|ts + [t]| - 1] == ts;
  }

  /** Operand order: if `p` evaluates to the single value `a` and `q` to the
      single value `b`, then `p q op` evaluates to `a op b`, the left operand
      coming from `p`; `/` with `b == 0` is a division by zero. */
  lemma OperandOrder(p: seq<Token>, q: seq<Token>, op: char, a: real, b: real)
    requires Operands(p) == Ok([a]) && Operands(q) == Ok([b])
    requires IsOperator(Sym(op))
    ensures Operands(p + q + [Sym(op)]) ==
      if op == '/' && b == 0.0 then Fail(DivisionByZero) else Ok([Apply(op, a, b)])
  {
    RunAppend(Ok([]), p, q);
    RunOnTop(q, [a], [b]);
    assert [b] + [a] == [b, a];
    RunLast(Ok([]), p + q, Sym(op), [b, a]);
    StepOnPair(op, a, b);
  }

  lemma StepOnPair(op: char, a: real, b: real)
    requires IsOperator(Sym(op))
    ensures EvalStep([b, a], Sym(op)) ==
      if op == '/' && b == 0.0 then Fail(DivisionByZero) else Ok([Apply(op, a, b)])
  {
    var stack := [b, a];
    assert stack[0] == b && stack[1] == a && stack[2..] == [];
    if !(op == '/' && b == 0.0) {
      var v := Apply(op, a, b);
      assert [v] + stack[2..] == [v];
    }
  }

  /** A lone number evaluates to its value. */
  lemma SingleNumber(t: Token)
    requires t.Number?
    ensures Operands([t]) == Ok([NumberValue(t)])
  {
    RunLast(Ok([]), [], t, []);
    assert [] + [t] == [t] && [NumberValue(t)] + [] == [NumberValue(t)];
  }

  /** An operator before any operand is a syntax error, whatever follows. */
  lemma LeadingOperatorIsSyntaxError(t: Token, rest: seq<Token>)
    requires !t.Number?
    ensures EvalPostfix([t] + rest) == Fail(SyntaxError)
  {
    RunAppend(Ok([]), [t], rest);
    assert Operands([t]) == Fail(SyntaxError) by {
      assert [t][..0] == [];
    }
    FailureAborts(SyntaxError, rest);
  }

  /** The missing default case: a '(' that reaches the evaluator swallows two
      operands without pushing a result. */
  lemma StrayOpenSwallowsOperands(x: Token, y: Token)
    requires x.Number? && y.Number?
    ensures EvalPostfix([x, y, Sym('(')]) == Ok(0.0)
  {
    assert !IsOperator(Sym('('));
    var vx, vy := NumberValue(x), NumberValue(y);
    RunLast(Ok([]), [], x, []);
    assert [] + [x] == [x] && [vx] + [] == [vx];
    RunLast(Ok([]), [x], y, [vx]);
    assert [x] + [y] == [x, y] && [vy] + [vx] == [vy, vx];
    RunLast(Ok([]), [x, y], Sym('('), [vy, vx]);
    assert [x, y] + [Sym('(')] == [x, y, Sym('(')] && [vy, vx][2..] == [];
    var last := EvalStep([vy, vx], Sym('('));
    assert last.Ok? && last.value == [];
    assert Operands([x, y, Sym('(')]) == Ok([]);
  }
}
