/** Parenthesis balance over characters: the property the engine's validator decides. */
module Parens {

  /** Number of occurrences of `c` in `s`. */
  function Count(s: seq<char>, c: char): (n: nat)
    ensures n <= |s|
  {
    if s == [] then 0 else Count(s[..|s| - 1], c) + (if s[|s| - 1] == c then 1 else 0)
  }

  /** Opening minus closing parentheses in `s`. */
  function Depth(s: seq<char>): int {
    Count(s, '(') - Count(s, ')')
  }

  /** Every prefix of `s` has at least as many '(' as ')'. */
  ghost predicate NeverNegative(s: seq<char>) {
    forall k | 0 <= k <= |s| :: Depth(s[..k]) >= 0
  }

  /** No ')' closes more than has been opened, and everything opened is closed. */
  ghost predicate Balanced(s: seq<char>) {
    NeverNegative(s) && Depth(s) == 0
  }

  lemma {:induction false} CountAppend(a: seq<char>, b: seq<char>, c: char)
    ensures Count(a + b, c) == Count(a, c) + Count(b, c)
  {
    if b != [] {
      assert (a + b)[..|a + b| - 1] == a + b[..|b| - 1];
      CountAppend(a, b[..|b| - 1], c);
    } else {
      assert a + b == a;
    }
  }

  /** Depth is additive over concatenation. */
  lemma DepthAppend(a: seq<char>, b: seq<char>)
    ensures Depth(a + b) == Depth(a) + Depth(b)
  {
    CountAppend(a, b, '(');
    CountAppend(a, b, ')');
  }

  /** A prefix of a never-negative sequence is never negative. */
  lemma NeverNegativePrefix(a: seq<char>, b: seq<char>)
    requires NeverNegative(a + b)
    ensures NeverNegative(a)
  {
    forall k | 0 <= k <= |a| ensures Depth(a[..k]) >= 0 {
      assert (a + b)[..k] == a[..k];
    }
  }

  /** Extending a never-negative sequence by one character keeps it never
      negative exactly when the new depth is not negative. */
  lemma NeverNegativeSnoc(s: seq<char>, c: char)
    requires NeverNegative(s)
    ensures NeverNegative(s + [c]) <==> Depth(s + [c]) >= 0
  {
    if Depth(s + [c]) >= 0 {
      forall k | 0 <= k <= |s + [c]| ensures Depth((s + [c])[..k]) >= 0 {
        if k <= |s| {
          assert (s + [c])[..k] == s[..k];
        } else {
          assert (s + [c])[..k] == s + [c];
        }
      }
    } else {
      assert (s + [c])[..|s + [c]|] == s + [c];
    }
  }

  lemma DepthOfChar(c: char)
    ensures Depth([c]) == (if c == '(' then 1 else if c == ')' then -1 else 0)
  {
    assert [c][..0] == [];
  }

  lemma {:induction false} CountAbsent(s: seq<char>, c: char)
    requires forall i | 0 <= i < |s| :: s[i] != c
    ensures Count(s, c) == 0
  {
    if s != [] {
      CountAbsent(s[..|s| - 1], c);
    }
  }

  /** A string with no parenthesis at all is balanced. */
  lemma ParenFreeBalanced(s: seq<char>)
    requires forall i | 0 <= i < |s| :: s[i] != '(' && s[i] != ')'
    ensures Balanced(s)
  {
    forall k | 0 <= k <= |s| ensures Depth(s[..k]) == 0 {
      CountAbsent(s[..k], '(');
      CountAbsent(s[..k], ')');
    }
    assert s[..|s|] == s;
  }

  /** Balanced strings written one after the other are balanced. */
  lemma BalancedConcat(a: seq<char>, b: seq<char>)
    requires Balanced(a) && Balanced(b)
    ensures Balanced(a + b)
  {
    forall k | 0 <= k <= |a + b| ensures Depth((a + b)[..k]) >= 0 {
      if k <= |a| {
        assert (a + b)[..k] == a[..k];
      } else {
        assert (a + b)[..k] == a + b[..k - |a|];
        DepthAppend(a, b[..k - |a|]);
      }
    }
    DepthAppend(a, b);
  }

  /** A balanced string in a pair of parentheses is balanced. */
  lemma BalancedWrap(a: seq<char>)
    requires Balanced(a)
    ensures Balanced(['('] + a + [')'])
  {
    var w := ['('] + a + [')'];
    DepthOfChar('(');
    DepthOfChar(')');
    DepthAppend(['('] + a, [')']);
    DepthAppend(['('], a);
    forall k | 0 <= k <= |w| ensures Depth(w[..k]) >= 0 {
      if k == 0 {
        assert w[..k] == [];
      } else if k <= |a| + 1 {
        assert w[..k] == ['('] + a[..k - 1];
        DepthAppend(['('], a[..k - 1]);
      } else {
        assert w[..k] == w;
      }
    }
    assert w[..|w|] == w;
  }
}
