# Calculator engine, modelled and verified in Dafny

This project models the expression engine of a desktop calculator, found in
`Form1.cs`. The engine is built on a hand-written singly-linked stack
(`Node<T>`, `MyStack<T>`). `CalculatorEngine` runs an expression through three
stages:

1. `IsValidExpression` checks that the parentheses are balanced.
2. `InfixToPostfix` tokenizes the input with the pattern
   `(\d+(\.\d+)?)|([+\-*/()])` and converts it to postfix with Dijkstra's
   shunting-yard algorithm. It uses an operator stack and an output stack that
   is reversed at the end.
3. `EvaluatePostfix` evaluates the postfix form with an operand stack.

`Calculate` runs the three stages in order and records the elapsed time.

The project has two layers.

- **Value layer.** Pure functions state what each stage computes:
  - `Parens.Balanced`: every prefix opens at least as many parentheses as it
    closes, and the whole string closes all it opens;
  - `Lexer.Lex`: an explicit scanner standing in for the regular expression;
  - `ShuntingYard.Scan` / `ShuntingYard.Postfix`: the conversion, over a state
    made of an operator stack and an output sequence;
  - `PostfixEval.EvalPostfix`: the evaluation;
  - `Calculator.Calculation`: the whole pipeline.

  Lemmas prove the properties of each stage. These include left associativity,
  the precedence table, number order being kept, every `)` finding its `(` on
  validated input, and a parenthesis-free permutation of the input's numbers
  and operators reaching the evaluator. They also cover operand order,
  failures that abort, and the lexer inverting a printer.
- **Imperative layer.** The classes `LinkedStack.MyStack` and
  `Engine.CalculatorEngine` are written with the source's stacks, fields and
  loops. Each engine method is proved to compute the value-level function:
  - `IsValidExpression` returns `Balanced(e)`;
  - `InfixToPostfix` leaves `Postfix(Lex(e))` on `outputFinal`, top first;
  - `EvaluatePostfix` returns `EvalPostfix` of the stack it drains;
  - `Calculate` returns `Calculation(e)`.

Modules, one per file:

| Module | File |
|---|---|
| `Outcomes` | `outcomes.dfy` |
| `LinkedStack` | `linked_stack.dfy` |
| `Parens` | `parens.dfy` |
| `Lexer` | `lexer.dfy` |
| `ShuntingYard` | `shunting_yard.dfy` |
| `PostfixEval` | `postfix_eval.dfy` |
| `Calculator` | `calculator.dfy` |
| `Engine` | `engine.dfy` |
| `Scenarios` (worked expressions) | `scenarios.dfy` |

### Conventions

- **Errors.** An exception becomes a `Fail` value of
  `Result<T> = Ok(value) | Fail(error)`. The error kinds are `Underflow`,
  `InvalidExpression`, `SyntaxError` and `DivisionByZero`.
- **Stacks.** A stack's `contents` are listed top first.
- **Postfix order.** A postfix sequence is in emission order, which is the order
  `EvaluatePostfix` drains it in.
- **Timing.** The stopwatch reading is a parameter, `elapsed`, of `Calculate`.

### Behaviour worth knowing

`Form1.cs:145-148` pops the whole operator stack from the top down, so an
unmatched `(` is emitted after the operators stacked above it and before those
below it (`ShuntingYard.StrayOpenIsEmitted`,
`ShuntingYard.StrayOpenAboveOperator`). The
evaluator's `switch` has no default case (`Form1.cs:191-200`), so that `(` then
consumes two operands and pushes nothing
(`PostfixEval.StrayOpenSwallowsOperands`). Neither path is reachable through
`Calculate`, which rejects unbalanced input first.

## Model

| member | source | states |
|---|---|---|
| LinkedStack.Node.constructor | Form1.cs:23-27 | A new node holds the given data and has no successor. |
| LinkedStack.MyStack.constructor | Form1.cs:36-40 | A new stack is valid and empty: `top` is null and `count` is 0. |
| LinkedStack.MyStack.IsEmpty | Form1.cs:42-45 | `top == null` holds exactly when there are no elements, exactly when `count == 0`. |
| LinkedStack.MyStack.Count | Form1.cs:70 | The `count` field equals the number of elements, which is the length of the node chain (the chain invariant is `Valid`). |
| LinkedStack.MyStack.Push | Form1.cs:47-53 | The pushed value becomes the top and the old elements lie below it unchanged, so `count` grows by one; only a fresh node is added. |
| LinkedStack.MyStack.Pop | Form1.cs:55-62 | On a non-empty stack, returns the old top and leaves the remaining elements, so `count` drops by one. On an empty stack, fails with `Underflow` and changes nothing. |
| LinkedStack.MyStack.Peek | Form1.cs:64-68 | Returns the top element without changing the stack; fails with `Underflow` on an empty stack. |
| LinkedStack.PushThenPop | Form1.cs:47-62 | LIFO law: a `Pop` right after `Push(x)` returns `x` and restores the contents and the count. |
| LinkedStack.PushAll | Form1.cs:47-53 | Pushing `xs` one by one onto a new stack leaves `xs` reversed, with the last pushed element on top. |
| LinkedStack.LastInFirstOut | Form1.cs:47-62 | Pushing `x1..xn` and then popping until empty returns `xn..x1`; one more pop on the drained stack is an `Underflow`. |
| LinkedStack.ReverseInvolutive | Form1.cs:150-155 | Reversing twice gives back the original order, the fact the double reversal through `outputQueue` relies on. |
| LinkedStack.ReverseAppend | Form1.cs:145-155 | Reversal turns `a + b` into `Reverse(b) + Reverse(a)`. |
| Parens.DepthAppend | Form1.cs:94-102 | The open-minus-close count of a concatenation is the sum of the parts' counts. |
| Parens.NeverNegativeSnoc | Form1.cs:94-102 | Extending a never-negative prefix by one character keeps it never negative exactly when the new depth is not negative. This is the per-character step of the check. |
| Parens.NeverNegativePrefix | Form1.cs:94-102 | Every prefix of a never-negative string is never negative. |
| Parens.DepthOfChar | Form1.cs:96-101 | `(` adds one to the depth, `)` subtracts one, and every other character is ignored. |
| Parens.Balanced | Form1.cs:91-104 | Definition of what the validator decides: no prefix closes more parentheses than it opens, and the whole string closes all it opens. |
| Parens.ParenFreeBalanced | Form1.cs:91-104 | A string with no parentheses is balanced. |
| Parens.BalancedConcat | Form1.cs:91-104 | Two balanced strings written one after the other form a balanced string. |
| Parens.BalancedWrap | Form1.cs:91-104 | A balanced string wrapped in `(` and `)` is balanced. |
| Lexer.Lex | Form1.cs:113-117 | Definition of the match loop: the tokens of the string, left to right, each taken as the leftmost longest match at the current position, with unmatched characters skipped. |
| Lexer.DigitRun | Form1.cs:113 | The length of the longest run of digits at the front of the string. Everything in the run is a digit, and the character after it is not. |
| Lexer.NextLexeme | Form1.cs:113-117 | The leftmost match consumes at least one character and never runs past the end. |
| Lexer.LexSymbols | Form1.cs:113-117 | The symbol tokens of `Lex(s)` are exactly the `+ - * / ( )` characters of `s`, in order: no symbol is dropped or swallowed by a number. |
| Lexer.NextLexemeSymbols | Form1.cs:113-117 | The front match yields the symbol characters it spans and only well-formed tokens. |
| Lexer.LexWellFormed | Form1.cs:113-119 | Every token is a numeral with at least one digit before the point, or one of the six symbols. |
| Lexer.LexWholeNumber | Form1.cs:113 | A digit run followed by neither a digit nor a point is one whole-number token. |
| Lexer.LexFractionalNumber | Form1.cs:113 | Digits, a point and more digits form one number token with a fraction. |
| Lexer.LexSymbol | Form1.cs:113 | Each of `+ - * / ( )` is a token of its own. |
| Lexer.LexWholeThenPoint | Form1.cs:113 | Digits followed by a point with no digit after it give a whole number, and the point is skipped: `5.+` lexes as `5 +`. |
| Lexer.LexWholeThenSymbol | Form1.cs:113 | A whole number directly followed by a symbol gives those two tokens. |
| Lexer.LexSkipped | Form1.cs:113-115 | Every character that is neither a digit nor one of `+ - * / ( )` (a blank, a letter, a comma, a point with no digits before it) is skipped. |
| Lexer.LexRender | Form1.cs:113-117 | Round trip: printing well-formed tokens with a blank after each and lexing the result gives the tokens back. |
| Lexer.LexBalanced | Form1.cs:91-117 | The symbol tokens of a validated string are themselves balanced. |
| Lexer.SymbolCharsDepth | Form1.cs:94-102 | Dropping the characters other than symbols does not change the parenthesis depth. |
| Lexer.SymbolCharsNeverNegative | Form1.cs:94-102 | Dropping the characters other than symbols keeps every prefix never negative. |
| Lexer.NumberValue | Form1.cs:180 | The value of a numeral lies between its whole part and its whole part plus one. |
| Lexer.DigitsValue | Form1.cs:180 | A digit string of length n denotes a natural number below 10^n. |
| ShuntingYard.GetPrecedence | Form1.cs:82-87 | `*` and `/` map to 2, `+` and `-` to 1, and every other token, parentheses included, to 0. |
| ShuntingYard.PopAtLeast | Form1.cs:137-140 | Definition of the operator loop: move stacked tokens to the output while the top has precedence at least p. |
| ShuntingYard.PopToOpen | Form1.cs:129-132 | Definition of the `)` loop: move stacked tokens to the output until `(` is on top or the stack is empty. |
| ShuntingYard.Step | Form1.cs:117-142 | Definition of one token's handling: a number goes to the output, `(` is stacked, `)` runs the `)` loop and drops the `(` it finds, and any other token runs the operator loop and is then stacked. |
| ShuntingYard.Scan | Form1.cs:115-143 | Definition of the token loop: `Step` folded left to right over the tokens, from an empty stack and an empty output. |
| ShuntingYard.Postfix | Form1.cs:145-155 | Definition of the result: the emitted tokens followed by what remains on the operator stack, top first. |
| ShuntingYard.PopAtLeastSplits | Form1.cs:137-140 | An operator of precedence p pops exactly the longest run of stacked tokens of precedence at least p, in stack order. When p > 0 that run contains no `(`. |
| ShuntingYard.PopToOpenSplits | Form1.cs:129-132 | A `)` pops exactly the tokens above the topmost `(` and stops there. |
| ShuntingYard.StepOperatorSplits | Form1.cs:135-142 | The operator branch moves a run of stacked tokens to the output and then stacks the operator over what remains. |
| ShuntingYard.StepCloseSplits | Form1.cs:127-134 | The `)` branch moves the tokens above the topmost `(` to the output and drops that `(`, if there is one. |
| ShuntingYard.PopToOpenStopsAtOpen | Form1.cs:129-133 | After the `)` loop, the stack is empty or has `(` on top. |
| ShuntingYard.ScanSnoc | Form1.cs:115-143 | The conversion processes tokens one at a time, left to right. |
| ShuntingYard.StepShaped | Form1.cs:115-143 | One token of lexer output preserves the shape invariant. The stack holds only `(` and the four operators, in strictly rising precedence between `(` markers. The output holds no parenthesis. |
| ShuntingYard.PushOperator | Form1.cs:141 | Stacking an operator above a top of lower precedence keeps the stack ordered. |
| ShuntingYard.ScanInvariant | Form1.cs:115-143 | The shape invariant holds after every prefix of lexer output. |
| ShuntingYard.StepNumbers | Form1.cs:119-142 | A number goes straight to the output; no step ever stacks a number. |
| ShuntingYard.ScanNumbers | Form1.cs:115-143 | The stack never holds a number, and the output receives the numbers in input order. |
| ShuntingYard.PostfixKeepsNumberOrder | Form1.cs:119-121 | The postfix form holds the input's number tokens in the same relative order. |
| ShuntingYard.NumbersAppend | Form1.cs:119-121 | Taking the number tokens distributes over concatenation. |
| ShuntingYard.StepMultiset | Form1.cs:115-143 | Output plus stack, with the `(` markers removed, gains exactly the token read, unless it is a parenthesis. |
| ShuntingYard.ScanMultiset | Form1.cs:115-148 | Output plus stack, with the `(` markers removed, always hold exactly the number and operator tokens read so far. |
| ShuntingYard.StepOpenCount | Form1.cs:123-142 | Each token changes the number of stacked `(` by +1 for `(`, by -1 for `)` and by 0 otherwise; no `)` is ever stacked. |
| ShuntingYard.StepOperatorCount | Form1.cs:135-142 | An operator never unstacks a `(`. |
| ShuntingYard.StepCloseCount | Form1.cs:127-134 | With a `(` on the stack, `)` removes exactly one `(`. |
| ShuntingYard.ScanOpenCount | Form1.cs:115-143 | While no prefix closes more than it opens, the stack holds one `(` per open parenthesis. |
| ShuntingYard.CloseFindsOpen | Form1.cs:127-134 | On balanced input, every `)` finds a `(` on the operator stack and stops at it. |
| ShuntingYard.PostfixOfBalanced | Form1.cs:145-148 | On balanced input, the postfix form contains no parenthesis. It is a permutation of the input's number and operator tokens, so its length is their count. |
| ShuntingYard.ChainOrder | Form1.cs:137-141 | In `x p y q z`, `p` is emitted before `q` exactly when its precedence is at least `q`'s. This gives left associativity and makes `* /` bind tighter than `+ -`. |
| ShuntingYard.ScanChainPrefix | Form1.cs:137-141 | After `x p y q`, `p` has been emitted exactly when it binds at least as tightly as `q`. |
| ShuntingYard.ScanOperand | Form1.cs:119-141 | After `x p y`, both numbers are emitted and `p` is stacked. |
| ShuntingYard.StrayOpenIsEmitted | Form1.cs:145-148 | An unclosed `(` is emitted by the final flush: `( x` converts to `x (`. |
| ShuntingYard.StrayOpenAboveOperator | Form1.cs:145-148 | The flush pops top first, so an unclosed `(` comes out before the operators stacked below it: `x p ( y` converts to `x y ( p`, as `2*(3` becomes `2 3 ( *`. |
| ShuntingYard.UnmatchedCloseIsDropped | Form1.cs:127-134 | A `)` with no `(` on the stack pops every stacked operator and is itself dropped. |
| PostfixEval.EvalStep | Form1.cs:180-200 | A number is pushed. Any other token fails with `SyntaxError` when fewer than two operands exist, and `/` fails with `DivisionByZero` when the top is 0. Otherwise the result replaces its two operands. |
| PostfixEval.Apply | Form1.cs:193-198 | Definition of `val1 op val2` for the four operators. |
| PostfixEval.Run | Form1.cs:178-202 | Definition of the token loop: `EvalStep` applied to each token in order, stopping at the first failure. |
| PostfixEval.Operands | Form1.cs:176-202 | Definition of the operand stack left after all tokens, starting from an empty stack. |
| PostfixEval.EvalPostfix | Form1.cs:164-204 | Empty input evaluates to 0. Evaluation fails only with `SyntaxError` or `DivisionByZero`. |
| PostfixEval.RunErrors | Form1.cs:186-197 | The only errors evaluation raises are `SyntaxError` and `DivisionByZero`. |
| PostfixEval.FailureAborts | Form1.cs:186-197 | Once an error is raised, the remaining tokens are not looked at. |
| PostfixEval.FailurePrefix | Form1.cs:178-202 | A failure on a prefix is the outcome of the whole sequence. |
| PostfixEval.RunAppend | Form1.cs:178-202 | Evaluating `a + b` is evaluating `a` and then `b` from where `a` left off. |
| PostfixEval.RunOnTop | Form1.cs:178-202 | A sequence that evaluates from an empty stack evaluates the same way on any stack and leaves what lies below untouched. |
| PostfixEval.StepOnTop | Form1.cs:180-200 | One step that succeeds on a stack succeeds the same way on any extension of that stack. |
| PostfixEval.RunLast | Form1.cs:178-202 | The last token is applied to the stack left by the others. |
| PostfixEval.OperandOrder | Form1.cs:188-199 | If `p` evaluates to `a` and `q` to `b`, then `p q op` evaluates to `a op b`: `val1` comes from the left and `val2` is the most recent. `/` with `b == 0` is a `DivisionByZero`. |
| PostfixEval.StepOnPair | Form1.cs:186-199 | With `b` on top of `a`, an operator yields `a op b`, or `DivisionByZero` for `/` by 0. |
| PostfixEval.SingleNumber | Form1.cs:180-183 | A lone number evaluates to its value. |
| PostfixEval.LeadingOperatorIsSyntaxError | Form1.cs:186 | An operator before any operand is a `SyntaxError`, whatever follows. |
| PostfixEval.StrayOpenSwallowsOperands | Form1.cs:188-203 | A `(` reaching the evaluator pops two operands and pushes nothing, because the `switch` has no default; `x y (` gives 0. |
| Calculator.Calculation | Form1.cs:207-228 | The result is `InvalidExpression` exactly when the parentheses are unbalanced. `Underflow` never escapes. |
| Calculator.ValidatedPostfix | Form1.cs:214-221 | After validation, the postfix form has no parenthesis. It is a permutation of the number and operator tokens, of the same length, with the numbers in input order. |
| Calculator.ValidatedCloseFindsOpen | Form1.cs:127-134 | After validation, every `)` token finds its `(` on the operator stack. |
| Engine.CalculatorEngine.constructor | Form1.cs:76-79 | A new engine has recorded no time yet. |
| Engine.CalculatorEngine.IsValidExpression | Form1.cs:91-104 | The stack-based scan returns exactly `Balanced(expression)`. It returns false at the first unmatched `)`, and otherwise returns whether the stack ended empty. |
| Engine.CalculatorEngine.InfixToPostfix | Form1.cs:107-161 | `outputFinal` holds `Postfix(Lex(expression))` with the first postfix token on top. |
| Engine.CalculatorEngine.EvaluatePostfix | Form1.cs:164-204 | Drains the given stack and returns `EvalPostfix` of its old contents, taken top first: the top of the operand stack, 0 when it is empty, or the first error. |
| Engine.CalculatorEngine.Calculate | Form1.cs:207-228 | Returns `Calculation(expression)`. Unbalanced input fails before any conversion. The time field is written only on success. |
| Engine.CalculateTwice | Form1.cs:207-228 | Two calculations of the same expression give the same outcome. |
| Engine.Drain | Form1.cs:169-173 | The list holds the stack's elements in pop order, and the stack is left empty. |
| Engine.EvalToken | Form1.cs:180-200 | One pass of the evaluation loop has the outcome of `EvalStep`, and on success leaves its new operand stack. |
| Engine.ConvertToken | Form1.cs:117-142 | One pass of the conversion loop moves the stacks from one shunting-yard state to the next, as `Step` does. |
| Engine.CloseGroup | Form1.cs:127-134 | The `)` branch performs `Step(_, ')')` on the two stacks. |
| Engine.StackOperator | Form1.cs:135-142 | The operator branch performs `Step(_, op)` on the two stacks. |
| Engine.MoveUntilOpen | Form1.cs:129-132 | The `)` loop performs `PopToOpen` on the two stacks. |
| Engine.MoveWhileAtLeast | Form1.cs:137-140 | The operator loop performs `PopAtLeast` on the two stacks. |
| Engine.FlushAndReverse | Form1.cs:145-155 | Draining the operator stack and then reversing produces the emitted tokens followed by the leftover stack, first token on top. Both `opStack` and `outputQueue` are left empty. |
| Engine.MoveAll | Form1.cs:145-155 | Popping one stack empty onto another lays its elements on top in reverse order. |
| Engine.MoveTop | Form1.cs:131 | `to.Push(from.Pop())` moves the top of one stack to the top of the other. |
| Scenarios.PrecedenceExample | Form1.cs:207-228 | `3+4*2` evaluates to 11. |
| Scenarios.ParenthesesExample | Form1.cs:207-228 | `(3+4)*2` evaluates to 14. |
| Scenarios.LeftAssociativityExample | Form1.cs:207-228 | `10/2/5` evaluates to 1, that is `(10/2)/5`. |
| Scenarios.FractionExample | Form1.cs:207-228 | `1.5*2` evaluates to 3. |
| Scenarios.DivisionByZeroExample | Form1.cs:207-228 | `5/0` fails with `DivisionByZero`. |
| Scenarios.UnclosedExample | Form1.cs:207-228 | `(3+4` fails with `InvalidExpression`. |
| Scenarios.ClosedBeforeOpenedExample | Form1.cs:207-228 | `)(` fails with `InvalidExpression`, although its counts match. |
| Scenarios.DoubleOperatorExample | Form1.cs:207-228 | `3++4` fails with `SyntaxError`. |
| Scenarios.UnaryMinusExample | Form1.cs:207-228 | `-5` fails with `SyntaxError`, because there is no unary minus. |

## Left out

- The `Form1` window (Form1.cs:234-383) is not modelled: layout, buttons, message boxes and display editing are presentation only.
- The `Stopwatch` (Form1.cs:210-211, 224-225) is wall-clock time. `Calculate` takes the reading as its `elapsed` parameter and stores it in `executionTime` only on success. The value itself is not modelled.
- The .NET `Regex` engine and `double.TryParse` (Form1.cs:113-119, 180) are replaced by the explicit ASCII scanner `Lexer.Lex` and the token kind `Number`. Unicode `\d` digits and culture-specific decimal separators are not modelled.
- IEEE-754 doubles (Form1.cs:176-203) are modelled as exact `real` numbers. Rounding, overflow to infinity and NaN are not modelled. The divisor test keeps the source's exact comparison with zero.
- Exceptions and their messages (Form1.cs:57, 66, 186, 197, 215) become the error kinds of `Outcomes.CalcError`. The message text is not modelled.
- Engine.CalculatorEngine.InfixToPostfix: `outputFinal` is allocated after the conversion loop rather than at the start (Form1.cs:110). Nothing touches it before the reversal, so only the allocation order differs.
- LinkedStack.MyStack.Pop: the ghost footprint `Repr` keeps an unlinked node after a pop. The node is unreachable from `top`, so this affects only the proof's frame and not the stack's behaviour.
- Stack tokens are `Lexer.Token` values rather than strings: reading a token back with `double.TryParse` becomes the `Number?` test on the token.
