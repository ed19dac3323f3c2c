/** The tokenizer of the calculator: an explicit scanner for the pattern
    "a digit run, optionally '.' and another digit run" or "one of + - * / ( )",
    in which every other character is skipped. */
module Lexer {
  import opened Parens

  /** A lexeme: a number (the digits before and after the point; `fraction` is
      empty when there is no point) or a one-character symbol. */
  datatype Token = Number(whole: string, fraction: string) | Sym(c: char)

  predicate IsDigit(c: char) {
    '0' <= c <= '9'
  }

  predicate IsSymbol(c: char) {
    c == '+' || c == '-' || c == '*' || c == '/' || c == '(' || c == ')'
  }

  /** The four arithmetic operators. */
  predicate IsOperator(t: Token) {
    t == Sym('+') || t == Sym('-') || t == Sym('*') || t == Sym('/')
  }

  predicate AllDigits(s: string) {
    forall i | 0 <= i < |s| :: IsDigit(s[i])
  }

  /** What the scanner can produce: a number with at least one digit before the
      point, or one of the six symbols. */
  predicate WellFormed(t: Token) {
    match t
    case Number(whole, fraction) => whole != [] && AllDigits(whole) && AllDigits(fraction)
    case Sym(c) => IsSymbol(c)
  }

  /** Length of the longest run of digits at the start of `s`. */
  function DigitRun(s: string): (n: nat)
    ensures n <= |s| && AllDigits(s[..n])
    ensures n == |s| || !IsDigit(s[n])
    ensures s != [] && IsDigit(s[0]) ==> n > 0
  {
    if s == [] || !IsDigit(s[0]) then 0
    else
      var n := 1 + DigitRun(s[1..]);
      assert s[..n] == [s[0]] + s[1..][..n - 1];
      n
  }

  /** The lexeme at the front of a non-empty `s`: how many characters it spans
      and the tokens it yields (none for a skipped character). At a digit the
      longest number is taken; its fraction is taken only when a digit follows
      the point. */
  function NextLexeme(s: string): (r: (nat, seq<Token>))
    requires s != []
    ensures 0 < r.0 <= |s|
  {
    if IsDigit(s[0]) then
      var m := DigitRun(s);
      if m + 1 < |s| && s[m] == '.' && IsDigit(s[m + 1]) then
        var n := m + 1 + DigitRun(s[m + 1..]);
        (n, [Number(s[..m], s[m + 1..n])])
      else
        (m, [Number(s[..m], "")])
    else if IsSymbol(s[0]) then (1, [Sym(s[0])])
    else (1, [])
  }

  /** The tokens of `s`, left to right. */
  function Lex(s: string): seq<Token>
    decreases |s|
  {
    if s == [] then []
    else
      var r := NextLexeme(s);
      r.1 + Lex(s[r.0..])
  }

  function Pow10(n: nat): (p: nat)
    ensures p >= 1
  {
    if n == 0 then 1 else 10 * Pow10(n - 1)
  }

  function DigitValue(c: char): nat {
    if IsDigit(c) then (c - '0') as nat else 0
  }

  /** The decimal value of a digit string, most significant digit first. */
  function DigitsValue(d: string): (v: nat)
    ensures v < Pow10(|d|)
  {
    if d == [] then 0 else 10 * DigitsValue(d[..|d| - 1]) + DigitValue(d[|d| - 1])
  }

  /** The value a number token denotes: its whole part plus its fraction. */
  function NumberValue(t: Token): (v: real)
    requires t.Number?
    ensures DigitsValue(t.whole) as real <= v < DigitsValue(t.whole) as real + 1.0
  {
    var fraction := DigitsValue(t.fraction) as real / Pow10(|t.fraction|) as real;
    FractionBelowOne(DigitsValue(t.fraction) as real, Pow10(|t.fraction|) as real);
    DigitsValue(t.whole) as real + fraction
  }

  lemma FractionBelowOne(a: real, b: real)
    requires 0.0 <= a < b
    ensures 0.0 <= a / b < 1.0
  {
  }

  // ---------------------------------------------------------------------------
  // Symbols survive lexing unchanged and in order.

  /** The symbol characters of `s`, in order. */
  function SymbolChars(s: string): string {
    if s == [] then [] else SymbolChars(s[..|s| - 1]) + (if IsSymbol(s[|s| - 1]) then [s[|s| - 1]] else [])
  }

  /** The characters of the symbol tokens of `ts`, in order. */
  function Symbols(ts: seq<Token>): string {
    if ts == [] then [] else Symbols(ts[..|ts| - 1]) + (if ts[|ts| - 1].Sym? then [ts[|ts| - 1].c] else [])
  }

  lemma {:induction false} SymbolCharsAppend(a: string, b: string)
    ensures SymbolChars(a + b) == SymbolChars(a) + SymbolChars(b)
  {
    if b == [] {
      assert a + b == a;
    } else {
      assert (a + b)[..|a + b| - 1] == a + b[..|b| - 1];
      SymbolCharsAppend(a, b[..|b| - 1]);
    }
  }

  lemma {:induction false} SymbolsAppend(a: seq<Token>, b: seq<Token>)
    ensures Symbols(a + b) == Symbols(a) + Symbols(b)
  {
    if b == [] {
      assert a + b == a;
    } else {
      assert (a + b)[..|a + b| - 1] == a + b[..|b| - 1];
      SymbolsAppend(a, b[..|b| - 1]);
    }
  }

  lemma {:induction false} NoSymbolChars(s: string)
    requires forall i | 0 <= i < |s| :: !IsSymbol(s[i])
    ensures SymbolChars(s) == []
  {
    if s != [] {
      NoSymbolChars(s[..|s| - 1]);
    }
  }

  /** The front lexeme's symbols are the symbol characters it spans, and its
      tokens are well formed. */
  lemma NextLexemeSymbols(s: string)
    requires s != []
    ensures var r := NextLexeme(s);
      Symbols(r.1) == SymbolChars(s[..r.0]) &&
      forall i | 0 <= i < |r.1| :: WellFormed(r.1[i])
  {
    if IsDigit(s[0]) {
      NumberLexemeSymbols(s);
    } else {
      assert [Sym(s[0])][..0] == [] && s[..1][..0] == [];
    }
  }

  lemma NumberLexemeSymbols(s: string)
    requires s != [] && IsDigit(s[0])
    ensures var r := NextLexeme(s);
      Symbols(r.1) == SymbolChars(s[..r.0]) &&
      forall i | 0 <= i < |r.1| :: WellFormed(r.1[i])
  {
    var m := DigitRun(s);
    var r := NextLexeme(s);
    var n := r.0;
    if m + 1 < |s| && s[m] == '.' && IsDigit(s[m + 1]) {
      var f := DigitRun(s[m + 1..]);
      assert n == m + 1 + f;
      assert s[m + 1..][..f] == s[m + 1..n];
      forall i | 0 <= i < n ensures !IsSymbol(s[..n][i]) {
        if i > m { assert s[i] == s[m + 1..][i - m - 1]; }
      }
    } else {
      forall i | 0 <= i < n ensures !IsSymbol(s[..n][i]) {
        assert s[i] == s[..m][i];
      }
    }
    NoSymbolChars(s[..n]);
    assert r.1[..0] == [];
  }

  /** The symbol tokens of `Lex(s)` are exactly the symbol characters of `s`,
      in the same order: a number never swallows an operator or a parenthesis,
      and no symbol is dropped. */
  lemma {:induction false} LexSymbols(s: string)
    ensures Symbols(Lex(s)) == SymbolChars(s)
    decreases |s|
  {
    if s != [] {
      var r := NextLexeme(s);
      var n, head := r.0, r.1;
      NextLexemeSymbols(s);
      assert s == s[..n] + s[n..];
      SymbolCharsAppend(s[..n], s[n..]);
      LexSymbols(s[n..]);
      SymbolsAppend(head, Lex(s[n..]));
    }
  }

  /** Every token the scanner produces is well formed. */
  lemma {:induction false} LexWellFormed(s: string)
    ensures forall i | 0 <= i < |Lex(s)| :: WellFormed(Lex(s)[i])
    decreases |s|
  {
    if s != [] {
      var r := NextLexeme(s);
      var n, head := r.0, r.1;
      NextLexemeSymbols(s);
      LexWellFormed(s[n..]);
      var ts := Lex(s);
      forall i | 0 <= i < |ts| ensures WellFormed(ts[i]) {
        if i >= |head| {
          assert ts[i] == Lex(s[n..])[i - |head|];
        }
      }
    }
  }

  lemma {:induction false} SymbolCharsDepth(s: string)
    ensures Depth(SymbolChars(s)) == Depth(s)
  {
    if s != [] {
      var p := s[..|s| - 1];
      var last := s[|s| - 1];
      SymbolCharsDepth(p);
      DepthAppend(SymbolChars(p), if IsSymbol(last) then [last] else []);
      assert s == p + [last];
      DepthAppend(p, [last]);
      assert [last][..0] == [];
    }
  }

  lemma {:induction false} SymbolCharsNeverNegative(s: string)
    requires NeverNegative(s)
    ensures NeverNegative(SymbolChars(s))
  {
    if s != [] {
      var p := s[..|s| - 1];
      var last := s[|s| - 1];
      assert s == p + [last];
      NeverNegativePrefix(p, [last]);
      SymbolCharsNeverNegative(p);
      if IsSymbol(last) {
        NeverNegativeSnoc(SymbolChars(p), last);
        SymbolCharsDepth(s);
        assert s[..|s|] == s;
      } else {
        assert SymbolChars(s) == SymbolChars(p);
      }
    }
  }

  // ---------------------------------------------------------------------------
  // Lexing inverts printing: a well-formed token sequence printed with a blank
  // after each token lexes back to itself.

  /** The characters a token is read from. */
  function Lexeme(t: Token): string {
    match t
    case Number(whole, fraction) => whole + (if fraction == [] then "" else "." + fraction)
    case Sym(c) => [c]
  }

  function Render(ts: seq<Token>): string {
    if ts == [] then [] else Lexeme(ts[0]) + " " + Render(ts[1..])
  }

  lemma {:induction false} DigitRunOf(w: string, rest: string)
    requires AllDigits(w)
    requires rest == [] || !IsDigit(rest[0])
    ensures DigitRun(w + rest) == |w|
  {
    if w == [] {
      assert w + rest == rest;
    } else {
      assert (w + rest)[1..] == w[1..] + rest;
      DigitRunOf(w[1..], rest);
    }
  }

  /** A character that is neither a digit nor one of the six symbols (a blank,
      a letter, a comma, a point not preceded by digits) is skipped. */
  lemma LexSkipped(c: char, rest: string)
    requires !IsDigit(c) && !IsSymbol(c)
    ensures Lex([c] + rest) == Lex(rest)
  {
    assert ([c] + rest)[1..] == rest;
  }

  /** A digit run followed by something other than a digit or a point is one
      whole number. */
  lemma LexWholeNumber(w: string, rest: string)
    requires w != [] && AllDigits(w)
    requires rest == [] || (!IsDigit(rest[0]) && rest[0] != '.')
    ensures Lex(w + rest) == [Number(w, "")] + Lex(rest)
  {
    var s := w + rest;
    DigitRunOf(w, rest);
    assert s[..|w|] == w && s[|w|..] == rest;
  }

  /** A digit run followed by a point with no digit after it: `(\.\d+)?` matches
      nothing, so the number is whole and the point is skipped. */
  lemma LexWholeThenPoint(w: string, rest: string)
    requires w != [] && AllDigits(w)
    requires rest == [] || !IsDigit(rest[0])
    ensures Lex(w + "." + rest) == [Number(w, "")] + Lex(rest)
  {
    var t := "." + rest;
    var s := w + t;
    assert w + "." + rest == s;
    DigitRunOf(w, t);
    WholeThenPointSlices(w, rest, s);
    NextLexemeWhole(s, |w|);
    LexSkipped('.', rest);
  }

  lemma WholeThenPointSlices(w: string, rest: string, s: string)
    requires w != []
    requires rest == [] || !IsDigit(rest[0])
    requires s == w + ("." + rest)
    ensures s[0] == w[0] && s[|w|] == '.' && (|w| + 1 < |s| ==> !IsDigit(s[|w| + 1]))
    ensures s[..|w|] == w && s[|w|..] == "." + rest
  {
  }

  /** The front match at a digit run `m` long that is not followed by a point
      and a digit is the whole number alone. */
  lemma NextLexemeWhole(s: string, m: nat)
    requires s != [] && IsDigit(s[0]) && DigitRun(s) == m
    requires !(m + 1 < |s| && s[m] == '.' && IsDigit(s[m + 1]))
    ensures NextLexeme(s) == (m, [Number(s[..m], "")])
  {
  }

  /** A whole number directly followed by a symbol. */
  lemma LexWholeThenSymbol(w: string, c: char, rest: string)
    requires w != [] && AllDigits(w) && IsSymbol(c)
    ensures Lex(w + [c] + rest) == [Number(w, ""), Sym(c)] + Lex(rest)
  {
    assert w + [c] + rest == w + ([c] + rest);
    LexWholeNumber(w, [c] + rest);
    LexSymbol(c, rest);
  }

  /** A symbol is a token of its own. */
  lemma LexSymbol(c: char, rest: string)
    requires IsSymbol(c)
    ensures Lex([c] + rest) == [Sym(c)] + Lex(rest)
  {
    assert ([c] + rest)[1..] == rest;
  }

  lemma FractionWholeRun(w: string, f: string, rest: string, s: string)
    requires AllDigits(w)
    requires s == w + ("." + f + rest)
    ensures DigitRun(s) == |w|
  {
    var t := "." + (f + rest);
    assert s == w + t;
    DigitRunOf(w, t);
  }

  lemma FractionPartRun(w: string, f: string, rest: string, s: string)
    requires AllDigits(f)
    requires rest == [] || !IsDigit(rest[0])
    requires s == w + ("." + f + rest)
    ensures DigitRun(s[|w| + 1..]) == |f|
  {
    assert s[|w| + 1..] == f + rest;
    DigitRunOf(f, rest);
  }

  lemma FractionSlices(w: string, f: string, rest: string, s: string)
    requires w != [] && f != []
    requires s == w + ("." + f + rest)
    ensures |w| + 1 < |s| && s[0] == w[0] && s[|w|] == '.' && s[|w| + 1] == f[0]
    ensures s[..|w|] == w && s[|w| + 1..|w| + 1 + |f|] == f && s[|w| + 1 + |f|..] == rest
  {
  }

  /** The front match at a digit run `m` long that is followed by a point and
      a digit run `k` long spans the number with its fraction. */
  lemma NextLexemeWithFraction(s: string, m: nat, k: nat)
    requires m + 1 < |s| && IsDigit(s[0]) && DigitRun(s) == m
    requires s[m] == '.' && IsDigit(s[m + 1]) && DigitRun(s[m + 1..]) == k
    ensures NextLexeme(s) == (m + 1 + k, [Number(s[..m], s[m + 1..m + 1 + k])])
  {
    var n := m + 1 + DigitRun(s[m + 1..]);
    assert n == m + 1 + k;
  }

  /** Digits, a point and more digits, followed by something other than a
      digit, are one number with a fraction. */
  lemma LexFractionalNumber(w: string, f: string, rest: string)
    requires w != [] && AllDigits(w) && f != [] && AllDigits(f)
    requires rest == [] || !IsDigit(rest[0])
    ensures Lex(w + ("." + f) + rest) == [Number(w, f)] + Lex(rest)
  {
    var s := w + ("." + f) + rest;
    assert s == w + ("." + f + rest);
    FractionWholeRun(w, f, rest, s);
    FractionPartRun(w, f, rest, s);
    FractionSlices(w, f, rest, s);
    NextLexemeWithFraction(s, |w|, |f|);
  }

  lemma LexOneToken(t: Token, rest: string)
    requires WellFormed(t)
    ensures Lex(Lexeme(t) + " " + rest) == [t] + Lex(rest)
  {
    match t
    case Number(w, f) =>
      if f == [] {
        assert Lexeme(t) + " " + rest == w + (" " + rest);
        LexWholeNumber(w, " " + rest);
        LexSkipped(' ', rest);
      } else {
        assert Lexeme(t) + " " + rest == w + ("." + f) + (" " + rest);
        LexFractionalNumber(w, f, " " + rest);
        LexSkipped(' ', rest);
      }
    case Sym(c) =>
      assert Lexeme(t) + " " + rest == [c] + (" " + rest);
      LexSymbol(c, " " + rest);
      LexSkipped(' ', rest);
  }

  /** Round trip: lexing the printed form gives back the tokens. */
  lemma {:induction false} LexRender(ts: seq<Token>)
    requires forall i | 0 <= i < |ts| :: WellFormed(ts[i])
    ensures Lex(Render(ts)) == ts
  {
    if ts != [] {
      LexOneToken(ts[0], Render(ts[1..]));
      LexRender(ts[1..]);
    }
  }

  /** A string the validator accepts lexes to a balanced token sequence. */
  lemma LexBalanced(s: string)
    requires Balanced(s)
    ensures Balanced(Symbols(Lex(s)))
  {
    LexSymbols(s);
    SymbolCharsNeverNegative(s);
    SymbolCharsDepth(s);
  }
}
