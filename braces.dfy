/** Brace matching over the whole text (`find_matching_paren`). */
module Braces {
  import opened Text

  // ---------------------------------------------------------------------
  // Brace matching (find_matching_paren)
  // ---------------------------------------------------------------------

  /** How one character moves the counter: an opening character counts up,
      otherwise a closing one counts down (the `elif`). */
  function Step(c: char, open: char, close: char): int
  {
    if c == open then 1 else if c == close then -1 else 0
  }

  /** The counter after scanning all of `s` from index 0. */
  function Depth(s: string, open: char, close: char): int
    decreases |s|
  {
    if s == [] then 0 else Depth(s[..|s| - 1], open, close) + Step(s[|s| - 1], open, close)
  }

  /** `j` is a closing character at which the counter, started at index 0,
      comes back to zero. */
  predicate IsMatchAt(code: string, open: char, close: char, j: int)
  {
    0 <= j < |code| && code[j] == close && code[j] != open && Depth(code[..j + 1], open, close) == 0
  }

  /** The counter before index `i + 1` is the counter before `i` plus one step. */
  lemma DepthSnoc(code: string, open: char, close: char, i: nat)
    requires i < |code|
    ensures Depth(code[..i + 1], open, close) == Depth(code[..i], open, close) + Step(code[i], open, close)
  {
    assert code[..i + 1][..i] == code[..i];
  }

  /** The scan of `find_matching_paren` from index `i` with counter `count`. */
  function MatchFrom(code: string, open: char, close: char, i: nat, count: int): (r: int)
    requires i <= |code|
    requires count == Depth(code[..i], open, close)
    ensures r == -1 || (i <= r && IsMatchAt(code, open, close, r))
    ensures forall j :: i <= j < |code| && (r == -1 || j < r) ==> !IsMatchAt(code, open, close, j)
    decreases |code| - i
  {
    if i == |code| then -1
    else
      DepthSnoc(code, open, close, i);
      if code[i] == open then MatchFrom(code, open, close, i + 1, count + 1)
      else if code[i] == close then
        if count - 1 == 0 then i else MatchFrom(code, open, close, i + 1, count - 1)
      else MatchFrom(code, open, close, i + 1, count)
  }

  /** The value `find_matching_paren` returns: the first closing character at
      which the counter comes back to zero, or -1 when there is none. */
  function MatchingParen(code: string, open: char, close: char): (r: int)
    ensures r == -1 || IsMatchAt(code, open, close, r)
    ensures forall j :: 0 <= j < |code| && (r == -1 || j < r) ==> !IsMatchAt(code, open, close, j)
  {
    assert code[..0] == [];
    MatchFrom(code, open, close, 0, 0)
  }

  /** `find_matching_paren`: the for loop with its early return. */
  method FindMatchingParen(code: string, openParen: char, closeParen: char) returns (r: int)
    ensures r == MatchingParen(code, openParen, closeParen)
    ensures r == -1 || IsMatchAt(code, openParen, closeParen, r)
    ensures forall j :: 0 <= j < |code| && (r == -1 || j < r) ==> !IsMatchAt(code, openParen, closeParen, j)
  {
    var unmatchedParenCount := 0;
    assert code[..0] == [];
    for i := 0 to |code|
      invariant unmatchedParenCount == Depth(code[..i], openParen, closeParen)
      invariant MatchFrom(code, openParen, closeParen, i, unmatchedParenCount) == MatchingParen(code, openParen, closeParen)
    {
      DepthSnoc(code, openParen, closeParen, i);
      if code[i] == openParen {
        unmatchedParenCount := unmatchedParenCount + 1;
      } else if code[i] == closeParen {
        unmatchedParenCount := unmatchedParenCount - 1;
        if unmatchedParenCount == 0 {
          return i;
        }
      }
    }
    return -1;
  }

  /** Without an opening character the counter never rises above zero. */
  lemma {:induction false} DepthWithoutOpen(s: string, open: char, close: char)
    requires open !in s
    ensures Depth(s, open, close) <= 0
    decreases |s|
  {
    if s != [] {
      assert s[..|s| - 1] + [s[|s| - 1]] == s;
      DepthWithoutOpen(s[..|s| - 1], open, close);
    }
  }

  /** A match lies after the first opening character. */
  lemma MatchFollowsOpen(code: string, open: char, close: char, r: int)
    requires IsMatchAt(code, open, close, r)
    ensures 0 <= IndexOf(code, open, 0) < r
  {
    var k := IndexOf(code, open, 0);
    if k == -1 || k >= r {
      assert open !in code[..r];
      DepthWithoutOpen(code[..r], open, close);
      DepthSnoc(code, open, close, r);
      assert false;
    }
  }

  /** Once the counter is positive and it ends at zero or below, a match
      exists from there on. */
  lemma {:induction false} ReachesZero(code: string, open: char, close: char, i: nat)
    requires i <= |code|
    requires Depth(code[..i], open, close) >= 1
    requires Depth(code[..|code|], open, close) <= 0
    ensures exists j :: i <= j < |code| && IsMatchAt(code, open, close, j)
    decreases |code| - i
  {
    if i == |code| {
      assert false;
    } else {
      DepthSnoc(code, open, close, i);
      if Depth(code[..i], open, close) == 1 && code[i] == close && code[i] != open {
        assert IsMatchAt(code, open, close, i);
      } else {
        ReachesZero(code, open, close, i + 1);
      }
    }
  }

  /** Balanced text, in which no prefix closes more than it opens and the
      numbers of opening and closing characters agree. */
  predicate Balanced(code: string, open: char, close: char)
  {
    (forall i :: 0 <= i <= |code| ==> Depth(code[..i], open, close) >= 0) && Depth(code, open, close) == 0
  }

  /** In balanced text that opens at all, a match is found. */
  lemma BalancedHasMatch(code: string, open: char, close: char)
    requires Balanced(code, open, close)
    requires open in code
    ensures MatchingParen(code, open, close) >= 0
  {
    var k := IndexOf(code, open, 0);
    DepthSnoc(code, open, close, k);
    assert Depth(code[..k], open, close) >= 0;
    assert code[..|code|] == code;
    ReachesZero(code, open, close, k + 1);
  }

  /** The counter is additive: scanning `x + y` ends where scanning `x`
      ends plus what `y` adds. */
  lemma {:induction false} DepthConcat(x: string, y: string, open: char, close: char)
    ensures Depth(x + y, open, close) == Depth(x, open, close) + Depth(y, open, close)
    decreases |y|
  {
    if y == [] {
      assert x + y == x;
    } else {
      var y' := y[..|y| - 1];
      DepthConcat(x, y', open, close);
      assert (x + y)[..|x + y| - 1] == x + y';
    }
  }

  /** Text without either character leaves the counter at zero. */
  lemma {:induction false} DepthFree(x: string, open: char, close: char)
    requires open !in x && close !in x
    ensures Depth(x, open, close) == 0
    decreases |x|
  {
    if x != [] {
      assert x[|x| - 1] in x;
      assert x == x[..|x| - 1] + [x[|x| - 1]];
      DepthFree(x[..|x| - 1], open, close);
    }
  }

  /** Text without either character is balanced. */
  lemma BraceFreeBalanced(x: string, open: char, close: char)
    requires open !in x && close !in x
    ensures Balanced(x, open, close)
  {
    forall i | 0 <= i <= |x|
      ensures Depth(x[..i], open, close) == 0
    {
      assert forall c :: c in x[..i] ==> c in x;
      DepthFree(x[..i], open, close);
    }
    DepthFree(x, open, close);
  }

  /** Balanced text followed by balanced text is balanced. */
  lemma BalancedConcat(x: string, y: string, open: char, close: char)
    requires Balanced(x, open, close) && Balanced(y, open, close)
    ensures Balanced(x + y, open, close)
  {
    var xy := x + y;
    forall i | 0 <= i <= |xy|
      ensures Depth(xy[..i], open, close) >= 0
    {
      if i <= |x| {
        assert xy[..i] == x[..i];
      } else {
        assert xy[..i] == x + y[..i - |x|];
        assert x[..|x|] == x;
        DepthConcat(x, y[..i - |x|], open, close);
      }
    }
    assert y[..|y|] == y;
    DepthConcat(x, y, open, close);
  }

  /** Balanced text between an opening and a closing character is balanced. */
  lemma BalancedWrap(b: string, open: char, close: char)
    requires open != close
    requires Balanced(b, open, close)
    ensures Balanced([open] + b + [close], open, close)
  {
    var w := [open] + b + [close];
    assert Depth([open], open, close) == 1 by { assert [open][..0] == []; }
    assert Depth([close], open, close) == -1 by { assert [close][..0] == []; }
    forall i | 0 <= i <= |w|
      ensures Depth(w[..i], open, close) >= 0
    {
      if i == 0 {
        assert w[..i] == [];
      } else if i <= |b| + 1 {
        assert w[..i] == [open] + b[..i - 1];
        DepthConcat([open], b[..i - 1], open, close);
      } else {
        assert w[..i] == w;
        assert b[..|b|] == b;
        DepthConcat([open], b, open, close);
        DepthConcat([open] + b, [close], open, close);
      }
    }
    DepthConcat([open], b, open, close);
    DepthConcat([open] + b, [close], open, close);
  }

  /** A block between text without braces is balanced: the shape of a
      nested structure inside a declaration list. */
  lemma BlockBalanced(a: string, b: string, c: string)
    requires '{' !in a && '}' !in a && '{' !in c && '}' !in c
    requires Balanced(b, '{', '}')
    ensures Balanced(a + "{" + b + "}" + c, '{', '}')
  {
    BraceFreeBalanced(a, '{', '}');
    BraceFreeBalanced(c, '{', '}');
    BalancedWrap(b, '{', '}');
    BalancedConcat(a, "{" + b + "}", '{', '}');
    assert a + ("{" + b + "}") == a + "{" + b + "}";
    BalancedConcat(a + "{" + b + "}", c, '{', '}');
  }

  /** Behind text without braces, the `}` closing a balanced block is the
      match, whatever follows it. */
  lemma MatchOfBlock(a: string, b: string, c: string)
    requires '{' !in a && '}' !in a
    requires Balanced(b, '{', '}')
    ensures MatchingParen(a + "{" + b + "}" + c, '{', '}') == |a| + |b| + 1
  {
    var code := a + "{" + b + "}" + c;
    var m := |a| + |b| + 1;
    var r := MatchingParen(code, '{', '}');
    DepthFree(a, '{', '}');
    assert code[..|a| + 1] == a + "{";
    DepthConcat(a, "{", '{', '}');
    assert Depth("{", '{', '}') == 1 by { assert "{"[..0] == []; }
    forall j | 0 <= j < m
      ensures !IsMatchAt(code, '{', '}', j)
    {
      if j < |a| {
        assert code[j] == a[j] && a[j] in a;
      } else if j > |a| {
        var k := j - |a|;
        assert code[..j + 1] == (a + "{") + b[..k];
        DepthConcat(a + "{", b[..k], '{', '}');
      }
    }
    assert code[m] == '}';
    assert code[..m + 1] == (a + "{") + b + "}";
    DepthConcat(a + "{", b, '{', '}');
    DepthConcat((a + "{") + b, "}", '{', '}');
    assert Depth("}", '{', '}') == -1 by { assert "}"[..0] == []; }
    assert b[..|b|] == b;
    assert IsMatchAt(code, '{', '}', m);
  }

  lemma MatchingParenExamples()
    ensures MatchingParen("{}", '{', '}') == 1
    ensures MatchingParen("{{}}", '{', '}') == 3
    ensures MatchingParen("}{", '{', '}') == -1
  {
    assert Depth("{}", '{', '}') == 0 by { assert "{}"[..1] == "{"; assert "{"[..0] == ""; }
    assert "{}"[..2] == "{}";
    assert IsMatchAt("{}", '{', '}', 1);
    var s := "{{}}";
    assert s[..4] == s && s[..3] == "{{}" && s[..2] == "{{" && s[..1] == "{";
    assert Depth("{", '{', '}') == 1 by { assert "{"[..0] == []; }
    assert Depth("{{", '{', '}') == 2 by { assert "{{"[..1] == "{"; }
    assert Depth("{{}", '{', '}') == 1 by { assert "{{}"[..2] == "{{"; }
    assert Depth(s, '{', '}') == 0 by { assert s[..3] == "{{}"; }
    assert !IsMatchAt(s, '{', '}', 2);
    assert IsMatchAt(s, '{', '}', 3);
    var t := "}{";
    assert t[..1] == "}" && t[..1][..0] == [];
    assert !IsMatchAt(t, '{', '}', 0) && !IsMatchAt(t, '{', '}', 1);
  }

  /** The counter starts at index 0, not at the first `{`: in "}{{}" the
      first `{` is never closed, yet the scan stops at index 3. */
  lemma MatchingCountsFromStart()
    ensures MatchingParen("}{{}", '{', '}') == 3
  {
    var s := "}{{}";
    assert s[..4] == s && s[..3] == "}{{" && s[..2] == "}{" && s[..1] == "}";
    assert Depth("}", '{', '}') == -1 by { assert "}"[..0] == []; }
    assert Depth("}{", '{', '}') == 0 by { assert "}{"[..1] == "}"; }
    assert Depth("}{{", '{', '}') == 1 by { assert "}{{"[..2] == "}{"; }
    assert Depth(s, '{', '}') == 0 by { assert s[..3] == "}{{"; }
    assert !IsMatchAt(s, '{', '}', 0);
    assert IsMatchAt(s, '{', '}', 3);
  }

}
