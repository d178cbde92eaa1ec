/**
 The two character scans of the expression language: which round bracket closes the
 first one, and where the leftmost equality outside all brackets stands.
 Both count brackets and know nothing about quotes.
 */
module Scan {
  import opened Prelude
  import opened Text

  /** Opening minus closing brackets of one kind. */
  function Nest(s: string, o: char, c: char): int {
    if s == "" then 0
    else
      var last := s[|s| - 1];
      Nest(s[..|s| - 1], o, c) + (if last == o then 1 else if last == c then -1 else 0)
  }

  /** The depth the equality scan keeps: round and square brackets together. */
  function Depth(s: string): int {
    Nest(s, '(', ')') + Nest(s, '[', ']')
  }

  ghost predicate BalancedIn(s: string, o: char, c: char) {
    && Nest(s, o, c) == 0
    && forall i | 0 <= i <= |s| :: Nest(s[..i], o, c) >= 0
  }

  /** Brackets of each kind match up; the two kinds may interleave. */
  ghost predicate Balanced(s: string) {
    BalancedIn(s, '(', ')') && BalancedIn(s, '[', ']')
  }

  lemma {:induction false} NestConcat(a: string, b: string, o: char, c: char)
    ensures Nest(a + b, o, c) == Nest(a, o, c) + Nest(b, o, c)
  {
    if b == "" {
      assert a + b == a;
    } else {
      assert (a + b)[..|a + b| - 1] == a + b[..|b| - 1];
      NestConcat(a, b[..|b| - 1], o, c);
    }
  }

  lemma DepthConcat(a: string, b: string)
    ensures Depth(a + b) == Depth(a) + Depth(b)
  {
    NestConcat(a, b, '(', ')');
    NestConcat(a, b, '[', ']');
  }

  lemma BalancedInConcat(a: string, b: string, o: char, c: char)
    requires BalancedIn(a, o, c) && BalancedIn(b, o, c)
    ensures BalancedIn(a + b, o, c)
  {
    NestConcat(a, b, o, c);
    forall i | 0 <= i <= |a + b|
      ensures Nest((a + b)[..i], o, c) >= 0
    {
      if i <= |a| {
        assert (a + b)[..i] == a[..i];
      } else {
        assert (a + b)[..i] == a + b[..i - |a|];
        NestConcat(a, b[..i - |a|], o, c);
      }
    }
  }

  lemma BalancedConcat(a: string, b: string)
    requires Balanced(a) && Balanced(b)
    ensures Balanced(a + b)
  {
    BalancedInConcat(a, b, '(', ')');
    BalancedInConcat(a, b, '[', ']');
  }

  predicate IsBracket(c: char) { c == '(' || c == ')' || c == '[' || c == ']' }

  lemma {:induction false} NestOfPlain(s: string, o: char, c: char)
    requires forall i | 0 <= i < |s| :: s[i] != o && s[i] != c
    ensures Nest(s, o, c) == 0
  {
    if s != "" { NestOfPlain(s[..|s| - 1], o, c); }
  }

  lemma PlainBalanced(s: string)
    requires forall i | 0 <= i < |s| :: !IsBracket(s[i])
    ensures Balanced(s)
  {
    forall i | 0 <= i <= |s|
      ensures Nest(s[..i], '(', ')') == 0 && Nest(s[..i], '[', ']') == 0
    {
      NestOfPlain(s[..i], '(', ')');
      NestOfPlain(s[..i], '[', ']');
    }
    assert s[..|s|] == s;
  }

  /** Inside one matching pair the depth of that kind never returns to zero. */
  lemma WrapNest(t: string, o: char, c: char, k: nat)
    requires o != c && BalancedIn(t, o, c) && 0 < k <= |t| + 2
    ensures var s := [o] + t + [c];
            Nest(s[..k], o, c) >= 0 && (Nest(s[..k], o, c) == 0 <==> k == |t| + 2)
  {
    var s := [o] + t + [c];
    assert Nest([o], o, c) == 1 by { assert [o][..0] == ""; }
    assert Nest([c], o, c) == -1 by { assert [c][..0] == ""; }
    if k <= |t| + 1 {
      assert s[..k] == [o] + t[..k - 1];
      NestConcat([o], t[..k - 1], o, c);
    } else {
      assert s[..k] == ([o] + t) + [c];
      NestConcat([o] + t, [c], o, c);
      NestConcat([o], t, o, c);
    }
  }

  lemma WrapOtherKind(t: string, o: char, c: char, o': char, c': char)
    requires BalancedIn(t, o', c') && o != o' && o != c' && c != o' && c != c'
    ensures BalancedIn([o] + t + [c], o', c')
  {
    var s := [o] + t + [c];
    forall k | 0 <= k <= |s|
      ensures Nest(s[..k], o', c') >= 0 && (k == |s| ==> Nest(s[..k], o', c') == 0)
    {
      NestOfPlain([o], o', c');
      NestOfPlain([c], o', c');
      if k == 0 {
        assert s[..k] == "";
      } else if k <= |t| + 1 {
        assert s[..k] == [o] + t[..k - 1];
        NestConcat([o], t[..k - 1], o', c');
      } else {
        assert s[..k] == ([o] + t) + [c];
        NestConcat([o] + t, [c], o', c');
        NestConcat([o], t, o', c');
      }
    }
    assert s[..|s|] == s;
  }

  lemma WrapBalanced(t: string, round: bool)
    requires Balanced(t)
    ensures round ==> Balanced("(" + t + ")")
    ensures !round ==> Balanced("[" + t + "]")
  {
    var (o, c, o', c') := if round then ('(', ')', '[', ']') else ('[', ']', '(', ')');
    var s := [o] + t + [c];
    WrapOtherKind(t, o, c, o', c');
    forall k | 0 <= k <= |s|
      ensures Nest(s[..k], o, c) >= 0 && (k == |s| ==> Nest(s[..k], o, c) == 0)
    {
      if k == 0 { assert s[..k] == ""; } else { WrapNest(t, o, c, k); }
    }
    assert s[..|s|] == s;
  }

  // ---------------------------------------------------------------- parentheses

  /** What the loop of `parensWrapWhole` decides: the count returns to zero only at the end. */
  predicate WrapsWhole(s: string) {
    forall k | 0 < k < |s| :: s[k - 1] == ')' ==> Nest(s[..k], '(', ')') != 0
  }

  method ParensWrapWhole(expr: string) returns (r: bool)
    ensures r == WrapsWhole(expr)
  {
    var depth := 0;
    var i := 0;
    while i < |expr| - 1
      invariant 0 <= i && (i <= |expr| - 1 || i == 0)
      invariant depth == Nest(expr[..i], '(', ')')
      invariant forall k | 0 < k <= i :: expr[k - 1] == ')' ==> Nest(expr[..k], '(', ')') != 0
    {
      assert expr[..i + 1][..i] == expr[..i];
      if expr[i] == '(' {
        depth := depth + 1;
      } else if expr[i] == ')' {
        depth := depth - 1;
        if depth == 0 { return false; }
      }
      i := i + 1;
    }
    return true;
  }

  /** `m` is the place of the bracket that closes the one at the start of `s`. */
  ghost predicate ClosesFirst(s: string, m: nat) {
    && m < |s| && s[m] == ')' && Nest(s[..m + 1], '(', ')') == 0
    && forall k | 0 < k <= m :: Nest(s[..k], '(', ')') > 0
  }

  /** On balanced text `parensWrapWhole` holds exactly when the first bracket closes at the last character. */
  lemma WrapsWholeIsMatch(s: string)
    requires |s| >= 2 && s[0] == '(' && BalancedIn(s, '(', ')')
    ensures s[|s| - 1] == ')' && WrapsWhole(s) <==> ClosesFirst(s, |s| - 1)
  {
    var m := |s| - 1;
    assert s[..m + 1] == s;
    if s[m] == ')' && WrapsWhole(s) {
      NestPositive(s, m);
    }
  }

  lemma {:induction false} NestPositive(s: string, n: nat)
    requires 0 < |s| && s[0] == '(' && BalancedIn(s, '(', ')') && WrapsWhole(s) && n < |s|
    ensures forall k | 0 < k <= n :: Nest(s[..k], '(', ')') > 0
  {
    if n > 0 {
      NestPositive(s, n - 1);
      assert s[..n][..n - 1] == s[..n - 1];
      if n == 1 { assert s[..1][..0] == "" && s[..1][0] == '('; }
    }
  }

  // ---------------------------------------------------------------- equality

  predicate IsEqChar(c: char) { c == '=' || c == '!' }

  predicate EqPairAt(s: string, i: int) {
    0 <= i && i + 1 < |s| && IsEqChar(s[i]) && s[i + 1] == '='
  }

  /** An operator the scan accepts: outside brackets, not the tail of a longer run, something on its left. */
  predicate TopEqAt(s: string, i: int) {
    && EqPairAt(s, i)
    && Depth(s[..i]) == 0
    && !(i > 0 && IsEqChar(s[i - 1]))
    && !AllBlank(s[..i])
  }

  /** The operator text at an accepted place. */
  function OpAt(s: string, i: nat): (op: string)
    requires EqPairAt(s, i)
    ensures 2 <= |op| && i + |op| <= |s| && op == s[i..i + |op|]
    ensures op in ["===", "!==", "==", "!="]
  {
    var op := [s[i]] + (if i + 2 < |s| && s[i + 2] == '=' then "==" else "=");
    assert op == "===" || op == "!==" || op == "==" || op == "!=";
    op
  }

  /** What stands left and right of an accepted place: `!==x` has none, and `a!==b` one. */
  lemma AcceptedExactly(left: string, right: string)
    ensures TopEqAt(left + right, |left|) <==>
            && |right| >= 2 && right[..2] in ["==", "!="]
            && (exists k | 0 <= k < |left| :: !IsBlank(left[k]))
            && left[|left| - 1] != '=' && left[|left| - 1] != '!'
            && Nest(left, '(', ')') == -Nest(left, '[', ']')
  {
    assert (left + right)[..|left|] == left;
    if |right| >= 2 {
      assert right[..2] == [right[0], right[1]];
      assert "=="[0] == '=' && "!="[0] == '!' && "=="[1] == '=' && "!="[1] == '=';
    }
  }

  /** An operator is as long as it can be. */
  lemma OperatorText(left: string, op: string, right: string)
    requires op in ["===", "!==", "==", "!="]
    requires |op| == 3 || right == "" || right[0] != '='
    ensures OpAt(left + (op + right), |left|) == op
  {
    var s := left + (op + right);
    assert s[|left|..] == op + right;
  }

  function FirstTopEq(s: string, i: nat): (r: Option<nat>)
    requires i <= |s|
    ensures r.None? ==> forall j | i <= j :: !TopEqAt(s, j)
    ensures r.Some? ==> i <= r.value && TopEqAt(s, r.value) && forall j | i <= j < r.value :: !TopEqAt(s, j)
    decreases |s| - i
  {
    if i == |s| then None
    else if TopEqAt(s, i) then Some(i)
    else FirstTopEq(s, i + 1)
  }

  lemma FirstTopEqUnique(s: string, k: nat)
    requires TopEqAt(s, k) && forall j | 0 <= j < k :: !TopEqAt(s, j)
    ensures FirstTopEq(s, 0) == Some(k)
  {
  }

  datatype Found = Found(index: nat, op: string)

  /**
   The scan returns the leftmost accepted operator: left part, operator and right part
   rebuild the text, the left part is not blank, and no earlier place qualifies.
   */
  method FindTopLevelEquality(expr: string) returns (r: Option<Found>)
    ensures r.None? <==> FirstTopEq(expr, 0).None?
    ensures r.Some? ==>
              && FirstTopEq(expr, 0) == Some(r.value.index)
              && r.value.op == OpAt(expr, r.value.index)
              && r.value.index + |r.value.op| <= |expr|
              && expr[..r.value.index] + r.value.op + expr[r.value.index + |r.value.op|..] == expr
              && !AllBlank(expr[..r.value.index])
              && r.value.op in ["===", "!==", "==", "!="]
  {
    var depth := 0;
    var i := 0;
    while i < |expr|
      invariant 0 <= i <= |expr|
      invariant depth == Depth(expr[..i])
      invariant forall j | 0 <= j < i :: !TopEqAt(expr, j)
    {
      assert expr[..i + 1][..i] == expr[..i];
      var c := expr[i];
      if c == '[' || c == '(' {
        depth := depth + 1;
      } else if c == ']' || c == ')' {
        depth := depth - 1;
      } else if depth == 0 && (c == '=' || c == '!') && i + 1 < |expr| && expr[i + 1] == '=' {
        TrimBlank(expr[..i]);
        if !(i > 0 && (expr[i - 1] == '=' || expr[i - 1] == '!')) && Trim(expr[..i]) != "" {
          var op := [c] + (if i + 2 < |expr| && expr[i + 2] == '=' then "==" else "=");
          assert op == OpAt(expr, i);
          FirstTopEqUnique(expr, i);
          return Some(Found(i, op));
        }
      }
      i := i + 1;
    }
    return None;
  }

  /** A trimmed text is empty exactly when the text is all blank. */
  lemma TrimBlank(s: string)
    ensures Trim(s) == "" <==> AllBlank(s)
  {
    TrimStartBlank(s);
    TrimEndBlank(TrimStart(s));
  }

  lemma {:induction false} TrimStartBlank(s: string)
    ensures TrimStart(s) == "" <==> AllBlank(s)
    ensures TrimStart(s) != "" ==> !IsBlank(TrimStart(s)[0])
  {
    if s != "" && IsBlank(s[0]) {
      TrimStartBlank(s[1..]);
      if AllBlank(s[1..]) {
        forall i | 0 <= i < |s| ensures IsBlank(s[i]) { if i > 0 { assert s[i] == s[1..][i - 1]; } }
      }
    }
  }

  lemma {:induction false} TrimEndBlank(s: string)
    ensures TrimEnd(s) == "" <==> AllBlank(s)
  {
    if s != "" && IsBlank(s[|s| - 1]) {
      TrimEndBlank(s[..|s| - 1]);
    }
  }

  /** No equality sign stands outside the brackets of `s`. */
  ghost predicate EqFree(s: string) {
    forall i | 0 <= i < |s| :: EqPairAt(s, i) ==> Depth(s[..i]) != 0
  }

  lemma EqFreeConcat(a: string, b: string)
    requires EqFree(a) && EqFree(b) && Depth(a) == 0
    requires a == "" || b == "" || !IsEqChar(a[|a| - 1]) || b[0] != '='
    ensures EqFree(a + b)
  {
    var s := a + b;
    forall i | 0 <= i < |s| && EqPairAt(s, i)
      ensures Depth(s[..i]) != 0
    {
      if i + 1 < |a| {
        assert s[..i] == a[..i] && EqPairAt(a, i);
      } else if i >= |a| {
        assert s[..i] == a + b[..i - |a|] && EqPairAt(b, i - |a|);
        DepthConcat(a, b[..i - |a|]);
      } else {
        assert false;
      }
    }
  }

  /** Whatever stands between matching brackets, no equality in it is at depth zero. */
  lemma WrapEqFree(t: string, round: bool)
    requires Balanced(t)
    ensures round ==> EqFree("(" + t + ")")
    ensures !round ==> EqFree("[" + t + "]")
  {
    var (o, c, o', c') := if round then ('(', ')', '[', ']') else ('[', ']', '(', ')');
    var s := [o] + t + [c];
    WrapBalanced(t, round);
    forall i | 0 <= i < |s| && EqPairAt(s, i)
      ensures Depth(s[..i]) != 0
    {
      assert i > 0;
      WrapNest(t, o, c, i);
      assert Nest(s[..i], o', c') >= 0;
    }
  }
}
