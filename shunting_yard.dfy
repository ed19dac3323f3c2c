/** Dijkstra's shunting-yard conversion from infix to postfix, as the engine
    performs it, stated on values: the operator stack is a sequence whose first
    element is the top, and the output is the sequence of tokens in the order
    they are emitted. */
module ShuntingYard {
  import opened Lexer
  import opened Parens

  const Open := Sym('(')
  const Close := Sym(')')

  /** Priority of a token: multiplicative operators bind tighter than additive
      ones, and everything else (parentheses in particular) has the lowest. */
  function GetPrecedence(t: Token): (p: nat)
    ensures p <= 2
    ensures p == 2 <==> t == Sym('*') || t == Sym('/')
    ensures p == 1 <==> t == Sym('+') || t == Sym('-')
    ensures p == 0 <==> !IsOperator(t)
  {
    if t == Sym('*') || t == Sym('/') then 2
    else if t == Sym('+') || t == Sym('-') then 1
    else 0
  }

  datatype State = State(ops: seq<Token>, out: seq<Token>)

  /** Moves stacked tokens to the output while the top has precedence at least `p`. */
  function PopAtLeast(ops: seq<Token>, out: seq<Token>, p: nat): State
    decreases |ops|
  {
    if ops != [] && GetPrecedence(ops[0]) >= p then PopAtLeast(ops[1..], out + [ops[0]], p)
    else State(ops, out)
  }

  /** Moves stacked tokens to the output until the top is '(' or the stack is empty. */
  function PopToOpen(ops: seq<Token>, out: seq<Token>): State
    decreases |ops|
  {
    if ops != [] && ops[0] != Open then PopToOpen(ops[1..], out + [ops[0]])
    else State(ops, out)
  }

  /** What the converter does with one token. */
  function Step(st: State, t: Token): State {
    if t.Number? then State(st.ops, st.out + [t])
    else if t == Open then State([t] + st.ops, st.out)
    else if t == Close then
      var r := PopToOpen(st.ops, st.out);
      State(if r.ops != [] then r.ops[1..] else r.ops, r.out)
    else
      var r := PopAtLeast(st.ops, st.out, GetPrecedence(t));
      State([t] + r.ops, r.out)
  }

  /** The state after all of `ts`, from an empty stack and an empty output. */
  function Scan(ts: seq<Token>): State {
    if ts == [] then State([], []) else Step(Scan(ts[..|ts| - 1]), ts[|ts| - 1])
  }

  lemma ScanSnoc(ts: seq<Token>, t: Token)
    ensures Scan(ts + [t]) == Step(Scan(ts), t)
  {
    assert (ts + [t])[..|ts|] == ts;
  }

  /** The postfix form: everything emitted, then whatever is left on the
      operator stack from the top down (a stray '(' included). */
  function Postfix(ts: seq<Token>): seq<Token> {
    var st := Scan(ts);
    st.out + st.ops
  }

  // ---------------------------------------------------------------------------
  // Filters used to state what the conversion keeps.

  /** The number tokens of `ts`, in order. */
  function Numbers(ts: seq<Token>): seq<Token> {
    if ts == [] then [] else Numbers(ts[..|ts| - 1]) + (if ts[|ts| - 1].Number? then [ts[|ts| - 1]] else [])
  }

  /** The tokens of `ts` that are not parentheses, in order. */
  function NonParen(ts: seq<Token>): seq<Token> {
    if ts == [] then [] else NonParen(ts[..|ts| - 1]) + (if ts[|ts| - 1] in {Open, Close} then [] else [ts[|ts| - 1]])
  }

  /** A stack with its '(' markers removed. */
  function Strip(ops: seq<Token>): seq<Token> {
    if ops == [] then [] else (if ops[0] == Open then [] else [ops[0]]) + Strip(ops[1..])
  }

  predicate AllWellFormed(ts: seq<Token>) {
    forall i | 0 <= i < |ts| :: WellFormed(ts[i])
  }

  /** The operator stack holds only '(' and the four operators. */
  predicate StackShape(ops: seq<Token>) {
    forall i | 0 <= i < |ops| :: ops[i] == Open || IsOperator(ops[i])
  }

  predicate NoParens(ts: seq<Token>) {
    forall i | 0 <= i < |ts| :: ts[i] != Open && ts[i] != Close
  }

  predicate NoNumbers(ts: seq<Token>) {
    forall i | 0 <= i < |ts| :: !ts[i].Number?
  }

  /** No operator on the stack sits directly above a token of equal or higher
      precedence: between two '(' markers precedences strictly rise towards the top. */
  predicate Ordered(ops: seq<Token>) {
    forall i | 0 <= i < |ops| - 1 :: IsOperator(ops[i]) ==> GetPrecedence(ops[i + 1]) < GetPrecedence(ops[i])
  }

  // ---------------------------------------------------------------------------
  // The two popping loops.

  /** An incoming operator of precedence `p` pops exactly the longest run of
      stacked tokens of precedence at least `p`, in stack order; when `p` is
      positive that run never contains '('. */
  lemma {:induction false} PopAtLeastSplits(ops: seq<Token>, out: seq<Token>, p: nat) returns (k: nat)
    ensures k <= |ops| && PopAtLeast(ops, out, p) == State(ops[k..], out + ops[..k])
    ensures forall i | 0 <= i < k :: GetPrecedence(ops[i]) >= p
    ensures k < |ops| ==> GetPrecedence(ops[k]) < p
    ensures p > 0 ==> forall i | 0 <= i < k :: ops[i] != Open
    decreases |ops|
  {
    if ops != [] && GetPrecedence(ops[0]) >= p {
      var j := PopAtLeastSplits(ops[1..], out + [ops[0]], p);
      k := j + 1;
      assert out + [ops[0]] + ops[1..][..j] == out + ops[..k];
    } else {
      k := 0;
    }
  }

  /** A ')' pops exactly the tokens above the topmost '(' and stops at it. */
  lemma {:induction false} PopToOpenSplits(ops: seq<Token>, out: seq<Token>) returns (k: nat)
    ensures k <= |ops| && PopToOpen(ops, out) == State(ops[k..], out + ops[..k])
    ensures forall i | 0 <= i < k :: ops[i] != Open
    ensures k < |ops| ==> ops[k] == Open
    decreases |ops|
  {
    if ops != [] && ops[0] != Open {
      var j := PopToOpenSplits(ops[1..], out + [ops[0]]);
      k := j + 1;
      assert out + [ops[0]] + ops[1..][..j] == out + ops[..k];
    } else {
      k := 0;
    }
  }

  /** Any other symbol pops a run of `k` stacked tokens, which for one of the
      four operators holds no '(', and is stacked above what remains. */
  lemma StepOperatorSplits(st: State, t: Token) returns (k: nat)
    requires !t.Number? && t != Open && t != Close
    ensures k <= |st.ops| && Step(st, t) == State([t] + st.ops[k..], st.out + st.ops[..k])
    ensures IsOperator(t) ==> forall i | 0 <= i < k :: st.ops[i] != Open
    ensures k < |st.ops| ==> GetPrecedence(st.ops[k]) < GetPrecedence(t)
  {
    k := PopAtLeastSplits(st.ops, st.out, GetPrecedence(t));
  }

  /** A ')' pops the `k` tokens above the topmost '(' and then drops that '(', if any. */
  lemma StepCloseSplits(st: State) returns (k: nat)
    ensures k <= |st.ops|
    ensures Step(st, Close) == State(if k < |st.ops| then st.ops[k + 1..] else [], st.out + st.ops[..k])
    ensures forall i | 0 <= i < k :: st.ops[i] != Open
    ensures k < |st.ops| ==> st.ops[k] == Open
  {
    k := PopToOpenSplits(st.ops, st.out);
  }

  lemma {:induction false} PopAtLeastMultiset(ops: seq<Token>, out: seq<Token>, p: nat)
    requires p > 0
    ensures var r := PopAtLeast(ops, out, p);
      multiset(r.out) + multiset(Strip(r.ops)) == multiset(out) + multiset(Strip(ops))
    decreases |ops|
  {
    if ops != [] && GetPrecedence(ops[0]) >= p {
      PopAtLeastMultiset(ops[1..], out + [ops[0]], p);
      assert Strip(ops) == [ops[0]] + Strip(ops[1..]);
    }
  }

  lemma {:induction false} PopToOpenMultiset(ops: seq<Token>, out: seq<Token>)
    ensures var r := PopToOpen(ops, out);
      multiset(r.out) + multiset(Strip(r.ops)) == multiset(out) + multiset(Strip(ops))
    decreases |ops|
  {
    if ops != [] && ops[0] != Open {
      PopToOpenMultiset(ops[1..], out + [ops[0]]);
      assert Strip(ops) == [ops[0]] + Strip(ops[1..]);
    }
  }

  // ---------------------------------------------------------------------------
  // Invariants of the conversion loop.

  lemma AllWellFormedPrefix(ts: seq<Token>, n: nat)
    requires AllWellFormed(ts) && n <= |ts|
    ensures AllWellFormed(ts[..n])
  {
    forall i | 0 <= i < n ensures WellFormed(ts[..n][i]) {
      assert ts[..n][i] == ts[i];
    }
  }

  ghost predicate Shaped(st: State) {
    StackShape(st.ops) && Ordered(st.ops) && NoParens(st.out)
  }

  lemma SuffixShaped(ops: seq<Token>, j: nat)
    requires StackShape(ops) && Ordered(ops) && j <= |ops|
    ensures StackShape(ops[j..]) && Ordered(ops[j..])
  {
    forall i | 0 <= i < |ops[j..]| ensures ops[j..][i] == ops[j + i] { }
  }

  lemma EmitNoParens(out: seq<Token>, ops: seq<Token>, k: nat)
    requires NoParens(out) && StackShape(ops) && k <= |ops|
    requires forall i | 0 <= i < k :: ops[i] != Open
    ensures NoParens(out + ops[..k])
  {
    forall i | 0 <= i < |out + ops[..k]| ensures (out + ops[..k])[i] != Open && (out + ops[..k])[i] != Close {
      if i >= |out| {
        assert (out + ops[..k])[i] == ops[i - |out|];
      }
    }
  }

  lemma StepCloseShaped(st: State)
    requires Shaped(st)
    ensures Shaped(Step(st, Close))
  {
    var k := PopToOpenSplits(st.ops, st.out);
    EmitNoParens(st.out, st.ops, k);
    if k < |st.ops| {
      assert Step(st, Close) == State(st.ops[k + 1..], st.out + st.ops[..k]);
      SuffixShaped(st.ops, k + 1);
    } else {
      assert Step(st, Close) == State(st.ops[k..], st.out + st.ops[..k]);
      SuffixShaped(st.ops, k);
    }
  }

  lemma StepOperatorShaped(st: State, t: Token)
    requires Shaped(st) && IsOperator(t)
    ensures Shaped(Step(st, t))
  {
    var k := StepOperatorSplits(st, t);
    var kept := st.ops[k..];
    EmitNoParens(st.out, st.ops, k);
    SuffixShaped(st.ops, k);
    assert kept != [] ==> kept[0] == st.ops[k];
    PushOperator(t, kept);
  }

  /** An operator may go on top of an ordered stack whose top binds less tightly. */
  lemma PushOperator(t: Token, rest: seq<Token>)
    requires IsOperator(t) && StackShape(rest) && Ordered(rest)
    requires rest != [] ==> GetPrecedence(rest[0]) < GetPrecedence(t)
    ensures StackShape([t] + rest) && Ordered([t] + rest)
  {
    var ops := [t] + rest;
    forall i | 0 <= i < |ops| ensures ops[i] == Open || IsOperator(ops[i]) {
      if i > 0 {
        assert ops[i] == rest[i - 1];
      }
    }
    forall i | 0 <= i < |ops| - 1 && IsOperator(ops[i])
      ensures GetPrecedence(ops[i + 1]) < GetPrecedence(ops[i])
    {
      if i > 0 {
        assert ops[i] == rest[i - 1] && ops[i + 1] == rest[i];
      }
    }
  }

  /** One token of lexer output keeps the stack made of '(' and operators in
      `Ordered` order, and the output free of parentheses. */
  lemma StepShaped(st: State, t: Token)
    requires Shaped(st) && WellFormed(t)
    ensures Shaped(Step(st, t))
  {
    if t.Number? {
      assert NoParens(st.out + [t]);
    } else if t == Open {
      assert Ordered([t] + st.ops);
    } else if t == Close {
      StepCloseShaped(st);
    } else {
      StepOperatorShaped(st, t);
    }
  }

  /** On lexer output the operator stack holds only '(' and operators, in the
      precedence order of `Ordered`, and the output never receives a parenthesis. */
  lemma {:induction false} ScanInvariant(ts: seq<Token>)
    requires AllWellFormed(ts)
    ensures Shaped(Scan(ts))
  {
    if ts != [] {
      AllWellFormedPrefix(ts, |ts| - 1);
      ScanInvariant(ts[..|ts| - 1]);
      StepShaped(Scan(ts[..|ts| - 1]), ts[|ts| - 1]);
    }
  }

  lemma {:induction false} NumbersAppend(a: seq<Token>, b: seq<Token>)
    ensures Numbers(a + b) == Numbers(a) + Numbers(b)
  {
    if b == [] {
      assert a + b == a;
    } else {
      assert (a + b)[..|a + b| - 1] == a + b[..|b| - 1];
      NumbersAppend(a, b[..|b| - 1]);
    }
  }

  lemma {:induction false} NumbersOfNone(ts: seq<Token>)
    requires NoNumbers(ts)
    ensures Numbers(ts) == []
  {
    if ts != [] {
      NumbersOfNone(ts[..|ts| - 1]);
    }
  }

  /** Numbers only ever go to the output, in arrival order; the stack never holds one. */
  lemma {:induction false} ScanNumbers(ts: seq<Token>)
    ensures var st := Scan(ts);
      NoNumbers(st.ops) && Numbers(st.out) == Numbers(ts)
  {
    if ts != [] {
      var pre, t := ts[..|ts| - 1], ts[|ts| - 1];
      ScanNumbers(pre);
      StepNumbers(Scan(pre), t);
    }
  }

  lemma StepNumbers(st: State, t: Token)
    requires NoNumbers(st.ops)
    ensures NoNumbers(Step(st, t).ops)
    ensures Numbers(Step(st, t).out) == Numbers(st.out) + (if t.Number? then [t] else [])
  {
    if t.Number? {
      NumbersAppend(st.out, [t]);
      assert Numbers([t]) == [t] by { assert [t][..0] == []; }
    } else if t == Open {
      assert NoNumbers([t] + st.ops) by {
        forall i | 0 < i < |st.ops| + 1 ensures !([t] + st.ops)[i].Number? {
          assert ([t] + st.ops)[i] == st.ops[i - 1];
        }
      }
    } else if t == Close {
      var k := StepCloseSplits(st);
      NoNumbersSuffix(st.ops, k);
      NoNumbersSuffix(st.ops, if k < |st.ops| then k + 1 else |st.ops|);
      NumbersAppend(st.out, st.ops[..k]);
      NumbersOfNone(st.ops[..k]);
      assert st.out + [] == st.out;
    } else {
      var k := StepOperatorSplits(st, t);
      NoNumbersSuffix(st.ops, k);
      NumbersAppend(st.out, st.ops[..k]);
      NumbersOfNone(st.ops[..k]);
      assert NoNumbers([t] + st.ops[k..]) by {
        forall i | 0 < i < |st.ops[k..]| + 1 ensures !([t] + st.ops[k..])[i].Number? {
          assert ([t] + st.ops[k..])[i] == st.ops[k..][i - 1];
        }
      }
      assert st.out + [] == st.out;
    }
  }

  lemma NoNumbersSuffix(ops: seq<Token>, j: nat)
    requires NoNumbers(ops) && j <= |ops|
    ensures NoNumbers(ops[j..]) && NoNumbers(ops[..j])
  {
    forall i | 0 <= i < |ops[j..]| ensures ops[j..][i] == ops[j + i] { }
    forall i | 0 <= i < j ensures ops[..j][i] == ops[i] { }
  }

  /** Number tokens reach the postfix output in the order they were read. */
  lemma PostfixKeepsNumberOrder(ts: seq<Token>)
    ensures Numbers(Postfix(ts)) == Numbers(ts)
  {
    ScanNumbers(ts);
    var st := Scan(ts);
    NumbersAppend(st.out, st.ops);
    NumbersOfNone(st.ops);
  }

  // ---------------------------------------------------------------------------
  // What the conversion keeps: every number and operator, exactly once.

  lemma PopToOpenStopsAtOpen(ops: seq<Token>, out: seq<Token>)
    ensures var r := PopToOpen(ops, out); r.ops != [] ==> r.ops[0] == Open
  {
    var k := PopToOpenSplits(ops, out);
  }

  lemma StepMultiset(st: State, t: Token)
    requires WellFormed(t)
    ensures var st' := Step(st, t);
      multiset(st'.out) + multiset(Strip(st'.ops))
        == multiset(st.out) + multiset(Strip(st.ops)) + (if t in {Open, Close} then multiset{} else multiset{t})
  {
    if t.Number? {
    } else if t == Open {
      assert Strip([t] + st.ops) == Strip(st.ops) by { assert ([t] + st.ops)[1..] == st.ops; }
    } else if t == Close {
      PopToOpenMultiset(st.ops, st.out);
      PopToOpenStopsAtOpen(st.ops, st.out);
    } else {
      assert IsOperator(t);
      PopAtLeastMultiset(st.ops, st.out, GetPrecedence(t));
      var r := PopAtLeast(st.ops, st.out, GetPrecedence(t));
      assert Strip([t] + r.ops) == [t] + Strip(r.ops) by { assert ([t] + r.ops)[1..] == r.ops; }
    }
  }

  /** Output and stack (without its '(' markers) together always hold exactly
      the number and operator tokens read so far. */
  lemma {:induction false} ScanMultiset(ts: seq<Token>)
    requires AllWellFormed(ts)
    ensures var st := Scan(ts);
      multiset(st.out) + multiset(Strip(st.ops)) == multiset(NonParen(ts))
  {
    if ts != [] {
      AllWellFormedPrefix(ts, |ts| - 1);
      ScanMultiset(ts[..|ts| - 1]);
      StepMultiset(Scan(ts[..|ts| - 1]), ts[|ts| - 1]);
    }
  }

  lemma {:induction false} StripNoOpen(ops: seq<Token>)
    requires multiset(ops)[Open] == 0
    ensures Strip(ops) == ops
  {
    if ops != [] {
      assert ops == [ops[0]] + ops[1..];
      StripNoOpen(ops[1..]);
    }
  }

  /** The symbols of `ts` split into those before the last token and the last one. */
  lemma SymbolsSnoc(ts: seq<Token>)
    requires ts != []
    requires NeverNegative(Symbols(ts))
    ensures NeverNegative(Symbols(ts[..|ts| - 1]))
    ensures Depth(Symbols(ts)) >= 0
    ensures var t := ts[|ts| - 1];
      Depth(Symbols(ts)) == Depth(Symbols(ts[..|ts| - 1])) + (if t == Open then 1 else if t == Close then -1 else 0)
  {
    var t := ts[|ts| - 1];
    var tail := if t.Sym? then [t.c] else [];
    NeverNegativePrefix(Symbols(ts[..|ts| - 1]), tail);
    DepthAppend(Symbols(ts[..|ts| - 1]), tail);
    if t.Sym? { DepthOfChar(t.c); }
    assert Symbols(ts)[..|Symbols(ts)|] == Symbols(ts);
  }

  lemma StepCloseCount(st: State)
    requires forall i | 0 <= i < |st.ops| :: st.ops[i] != Close
    requires multiset(st.ops)[Open] >= 1
    ensures multiset(Step(st, Close).ops)[Open] == multiset(st.ops)[Open] - 1
    ensures forall i | 0 <= i < |Step(st, Close).ops| :: Step(st, Close).ops[i] != Close
  {
    var ops := st.ops;
    var k := PopToOpenSplits(ops, st.out);
    assert k < |ops|;
    assert ops == ops[..k] + [Open] + ops[k + 1..];
    assert multiset(ops[..k])[Open] == 0;
    assert Step(st, Close).ops == ops[k + 1..];
  }

  lemma StepOperatorCount(st: State, t: Token)
    requires IsOperator(t)
    ensures multiset(Step(st, t).ops)[Open] == multiset(st.ops)[Open]
  {
    var k := StepOperatorSplits(st, t);
    var popped, kept := st.ops[..k], st.ops[k..];
    assert st.ops == popped + kept;
    NoOpenCount(popped);
    assert multiset(st.ops)[Open] == multiset(popped)[Open] + multiset(kept)[Open];
    assert multiset([t] + kept)[Open] == multiset([t])[Open] + multiset(kept)[Open];
  }

  lemma NoOpenCount(ts: seq<Token>)
    requires forall i | 0 <= i < |ts| :: ts[i] != Open
    ensures multiset(ts)[Open] == 0
  {
    assert Open !in ts;
  }

  lemma StepOpenCount(st: State, t: Token)
    requires WellFormed(t)
    requires forall i | 0 <= i < |st.ops| :: st.ops[i] != Close
    requires t == Close ==> multiset(st.ops)[Open] >= 1
    ensures var ops' := Step(st, t).ops;
      multiset(ops')[Open] == multiset(st.ops)[Open] + (if t == Open then 1 else if t == Close then -1 else 0) &&
      forall i | 0 <= i < |ops'| :: ops'[i] != Close
  {
    if t.Number? {
    } else if t == Open {
    } else if t == Close {
      StepCloseCount(st);
    } else {
      StepOperatorCount(st, t);
      var k := StepOperatorSplits(st, t);
    }
  }

  /** While no prefix closes more than it opens, the stack holds one '(' for
      every parenthesis still open, and never a ')'. */
  lemma {:induction false} ScanOpenCount(ts: seq<Token>)
    requires AllWellFormed(ts) && NeverNegative(Symbols(ts))
    ensures multiset(Scan(ts).ops)[Open] == Depth(Symbols(ts))
    ensures forall i | 0 <= i < |Scan(ts).ops| :: Scan(ts).ops[i] != Close
  {
    if ts != [] {
      AllWellFormedPrefix(ts, |ts| - 1);
      SymbolsSnoc(ts);
      ScanOpenCount(ts[..|ts| - 1]);
      StepOpenCount(Scan(ts[..|ts| - 1]), ts[|ts| - 1]);
    }
  }

  /** On input whose every prefix closes no more than it opens, each ')' finds
      a '(' on the operator stack, stops there and discards it. */
  lemma CloseFindsOpen(ts: seq<Token>, i: nat)
    requires AllWellFormed(ts) && NeverNegative(Symbols(ts))
    requires i < |ts| && ts[i] == Close
    ensures var st := Scan(ts[..i]);
      var r := PopToOpen(st.ops, st.out);
      r.ops != [] && r.ops[0] == Open
  {
    var pre := ts[..i + 1];
    assert ts == pre + ts[i + 1..];
    SymbolsAppend(pre, ts[i + 1..]);
    NeverNegativePrefix(Symbols(pre), Symbols(ts[i + 1..]));
    AllWellFormedPrefix(ts, i + 1);
    assert pre[..|pre| - 1] == ts[..i];
    SymbolsSnoc(pre);
    AllWellFormedPrefix(ts, i);
    ScanOpenCount(ts[..i]);
    var st := Scan(ts[..i]);
    var k := PopToOpenSplits(st.ops, st.out);
    assert k < |st.ops|;
  }

  /** For a balanced token sequence the postfix form contains no parenthesis
      and is a permutation of the number and operator tokens of the input, so
      its length is their number. */
  lemma PostfixOfBalanced(ts: seq<Token>)
    requires AllWellFormed(ts) && Balanced(Symbols(ts))
    ensures NoParens(Postfix(ts))
    ensures multiset(Postfix(ts)) == multiset(NonParen(ts))
    ensures |Postfix(ts)| == |NonParen(ts)|
  {
    ScanInvariant(ts);
    ScanMultiset(ts);
    ScanOpenCount(ts);
    var st := Scan(ts);
    StripNoOpen(st.ops);
    EmitNoParens(st.out, st.ops, |st.ops|);
    assert st.ops[..|st.ops|] == st.ops;
    assert |multiset(Postfix(ts))| == |Postfix(ts)|;
  }

  // ---------------------------------------------------------------------------
  // Precedence, associativity and the stray-parenthesis quirk on small inputs.

  /** In `x p y q z` the first operator is emitted before the second exactly
      when its precedence is at least the second's: equal precedence associates
      to the left, and `*` `/` bind tighter than `+` `-`. */
  lemma ChainOrder(x: Token, p: Token, y: Token, q: Token, z: Token)
    requires x.Number? && y.Number? && z.Number? && IsOperator(p) && IsOperator(q)
    ensures Postfix([x, p, y, q, z]) ==
      if GetPrecedence(p) >= GetPrecedence(q) then [x, y, p, z, q] else [x, y, z, q, p]
  {
    ScanChainPrefix(x, p, y, q);
    ScanSnoc([x, p, y, q], z);
    assert [x, p, y, q] + [z] == [x, p, y, q, z];
  }

  /** The state after `x p y q`: `p` has been emitted exactly when it binds at
      least as tightly as `q`. */
  lemma ScanChainPrefix(x: Token, p: Token, y: Token, q: Token)
    requires x.Number? && y.Number? && IsOperator(p) && IsOperator(q)
    ensures Scan([x, p, y, q]) ==
      if GetPrecedence(p) >= GetPrecedence(q) then State([q], [x, y, p]) else State([q, p], [x, y])
  {
    ScanOperand(x, p, y);
    ScanSnoc([x, p, y], q);
    assert [x, p, y] + [q] == [x, p, y, q];
    if GetPrecedence(p) >= GetPrecedence(q) {
      assert PopAtLeast([p], [x, y], GetPrecedence(q)) == State([], [x, y, p]);
    } else {
      assert PopAtLeast([p], [x, y], GetPrecedence(q)) == State([p], [x, y]);
    }
  }

  /** The state after `x p y`: both numbers emitted, `p` stacked. */
  lemma ScanOperand(x: Token, p: Token, y: Token)
    requires x.Number? && y.Number? && IsOperator(p)
    ensures Scan([x, p, y]) == State([p], [x, y])
  {
    ScanSnoc([], x);
    assert [] + [x] == [x];
    ScanSnoc([x], p);
    assert [x] + [p] == [x, p];
    ScanSnoc([x, p], y);
    assert [x, p] + [y] == [x, p, y];
  }

  /** A '(' that is never closed is emitted at the end, after the numbers. */
  lemma StrayOpenIsEmitted(x: Token)
    requires x.Number?
    ensures Postfix([Open, x]) == [x, Open]
  {
    ScanSnoc([], Open);
    assert [] + [Open] == [Open];
    ScanSnoc([Open], x);
    assert [Open] + [x] == [Open, x];
  }

  /** The final flush pops from the top down: in `x p ( y` the unclosed '(' is
      emitted after the operand and before the operator stacked below it. */
  lemma StrayOpenAboveOperator(x: Token, p: Token, y: Token)
    requires x.Number? && y.Number? && IsOperator(p)
    ensures Postfix([x, p, Open, y]) == [x, y, Open, p]
  {
    ScanSnoc([], x);
    assert [] + [x] == [x];
    ScanSnoc([x], p);
    assert [x] + [p] == [x, p];
    ScanSnoc([x, p], Open);
    assert [x, p] + [Open] == [x, p, Open];
    ScanSnoc([x, p, Open], y);
    assert [x, p, Open] + [y] == [x, p, Open, y];
  }

  /** A ')' with no '(' on the stack pops every stacked operator and is dropped. */
  lemma UnmatchedCloseIsDropped(x: Token, p: Token, y: Token)
    requires x.Number? && y.Number? && IsOperator(p)
    ensures Postfix([x, p, y, Close]) == [x, y, p]
  {
    ScanOperand(x, p, y);
    ScanSnoc([x, p, y], Close);
    assert [x, p, y] + [Close] == [x, p, y, Close];
    assert PopToOpen([p], [x, y]) == State([], [x, y, p]);
  }
}
