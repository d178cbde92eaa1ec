/**
 The expression evaluator, which works on raw text. JavaScript values stay abstract: a World
 supplies the constants, truthiness, the two equalities and property reads. All of it is total,
 so these definitions also show that evaluation ends on every text, however malformed.
 */
module Evaluator {
  import opened Prelude
  import opened Text
  import opened Scan

  /** The JavaScript values and operations that an expression can reach. */
  datatype World<!V> = World(
    undef: V,
    nil: V,
    bool_: bool -> V,
    number: string -> V,
    text: string -> V,
    truthy: V -> bool,
    nullish: V -> bool,
    strictEq: (V, V) -> bool,
    looseEq: (V, V) -> bool,
    prop: (V, V) -> V)
  {
    /** A guarded property read: `obj == null ? undefined : obj[key]`. */
    function Read(obj: V, key: V): V {
      if nullish(obj) then undef else prop(obj, key)
    }

    function Compare(op: string, l: V, r: V): V {
      if op == "===" then bool_(strictEq(l, r))
      else if op == "!==" then bool_(!strictEq(l, r))
      else if op == "==" then bool_(looseEq(l, r))
      else bool_(!looseEq(l, r))
    }
  }

  /** The text inside a leading and a trailing quote of the same kind. */
  predicate IsQuoted(s: string) {
    |s| >= 2 && (s[0] == '"' || s[0] == '\'') && s[|s| - 1] == s[0]
  }

  predicate IsWrapped(s: string) {
    |s| >= 2 && s[0] == '(' && s[|s| - 1] == ')' && WrapsWhole(s)
  }

  /** What each name at the head of a path stands for. */
  type Lookup<!V> = string -> V

  /** Names are read off an object of values. */
  function Names<V>(w: World<V>, vals: V): Lookup<V> {
    (name: string) => w.Read(vals, w.text(name))
  }

  /** The value of an expression text: blanks around it are dropped first. */
  function Resolve<V>(w: World<V>, look: Lookup<V>, src: string): V
    decreases |src|, 3
  {
    ResolveTrimmed(w, look, Trim(src))
  }

  function ResolveTrimmed<V>(w: World<V>, look: Lookup<V>, expr: string): V
    decreases |expr|, 2
  {
    if expr == "" then w.undef
    else if IsWrapped(expr) then Resolve(w, look, expr[1..|expr| - 1])
    else if FirstTopEq(expr, 0).Some? then
      var i := FirstTopEq(expr, 0).value;
      var op := OpAt(expr, i);
      w.Compare(op, Resolve(w, look, expr[..i]), Resolve(w, look, expr[i + |op|..]))
    else if expr[0] == '!' then w.bool_(!w.truthy(Resolve(w, look, expr[1..])))
    else if Constant(w, expr).Some? then Constant(w, expr).value
    else ResolvePath(w, look, expr)
  }

  /** Reserved words, numbers and quoted texts. */
  function Constant<V>(w: World<V>, expr: string): Option<V> {
    if expr == "true" then Some(w.bool_(true))
    else if expr == "false" then Some(w.bool_(false))
    else if expr == "null" then Some(w.nil)
    else if expr == "undefined" then Some(w.undef)
    else if IsNumber(expr) then Some(w.number(expr))
    else if IsQuoted(expr) then Some(w.text(expr[1..|expr| - 1]))
    else None
  }

  function ResolvePath<V>(w: World<V>, look: Lookup<V>, expr: string): V
    decreases |expr|, 1
  {
    var n := IdentLength(expr);
    if n == 0 then w.undef
    else PathFrom(w, look, expr[n..], look(expr[..n]))
  }

  /** Length of the key after a dot: an identifier, or else a run of digits. */
  function KeyLength(s: string): (n: nat)
    ensures n <= |s|
  {
    if IdentLength(s) > 0 then IdentLength(s) else RunLength(s, IsDigit)
  }

  /** The steps left in a path, with value `cur` so far. */
  function PathFrom<V>(w: World<V>, look: Lookup<V>, rest: string, cur: V): V
    decreases |rest|, 0
  {
    if rest == "" then cur
    else if rest[0] == '.' then
      var n := KeyLength(rest[1..]);
      if n == 0 then w.undef
      else PathFrom(w, look, rest[1 + n..], w.Read(cur, w.text(rest[1..1 + n])))
    else if rest[0] == '[' then
      var close := FindClose(rest[1..], 1);
      if close.None? then w.undef
      else
        var k := close.value;
        PathFrom(w, look, rest[k + 2..], w.Read(cur, Resolve(w, look, rest[1..k + 1])))
    else w.undef
  }

  function Shift(r: Option<nat>, n: nat): Option<nat> {
    if r.None? then None else Some(r.value + n)
  }

  /** The square bracket that closes `depth` open ones, counting square brackets only. */
  function FindClose(t: string, depth: nat): (r: Option<nat>)
    requires depth > 0
    ensures r.Some? ==> r.value < |t| && t[r.value] == ']'
  {
    if t == "" then None
    else if t[0] == ']' && depth == 1 then Some(0)
    else Shift(FindClose(t[1..], depth + (if t[0] == '[' then 1 else if t[0] == ']' then -1 else 0)), 1)
  }

  /** `k` is the first place at which `depth` brackets, open before `t`, are closed. */
  ghost predicate Closes(t: string, depth: nat, k: nat) {
    && k < |t| && depth + Nest(t[..k + 1], '[', ']') == 0
    && forall m | 0 <= m <= k :: depth + Nest(t[..m], '[', ']') > 0
  }

  lemma NestHead(t: string, m: nat)
    requires 0 < m <= |t|
    ensures Nest(t[..m], '[', ']') ==
            (if t[0] == '[' then 1 else if t[0] == ']' then -1 else 0) + Nest(t[1..][..m - 1], '[', ']')
  {
    assert t[..m] == [t[0]] + t[1..][..m - 1];
    NestConcat([t[0]], t[1..][..m - 1], '[', ']');
    assert [t[0]][..0] == "";
  }

  /** The bracket search is exact. */
  lemma {:induction false} FindCloseIsFirst(t: string, depth: nat, k: nat)
    requires depth > 0
    ensures FindClose(t, depth) == Some(k) <==> Closes(t, depth, k)
    decreases |t|
  {
    if t != "" {
      NestHead(t, 1);
      assert t[..0] == "" && t[1..][..0] == "";
      if t[0] == ']' && depth == 1 {
        assert k > 0 ==> !Closes(t, depth, k);
      } else {
        var d := depth + (if t[0] == '[' then 1 else if t[0] == ']' then -1 else 0);
        if k == 0 {
          assert !Closes(t, depth, k);
        } else {
          FindCloseIsFirst(t[1..], d, k - 1);
          ClosesHead(t, depth, d, k);
        }
      }
    }
  }

  lemma ClosesHead(t: string, depth: nat, d: nat, k: nat)
    requires t != "" && k > 0 && depth > 0 && d > 0
    requires d == depth + (if t[0] == '[' then 1 else if t[0] == ']' then -1 else 0)
    ensures Closes(t, depth, k) <==> Closes(t[1..], d, k - 1)
  {
    if k < |t| { NestHead(t, k + 1); }
    if Closes(t[1..], d, k - 1) {
      forall m | 0 <= m <= k
        ensures depth + Nest(t[..m], '[', ']') > 0
      {
        if m > 0 { NestHead(t, m); }
      }
    }
    if Closes(t, depth, k) {
      forall m | 0 <= m <= k - 1
        ensures d + Nest(t[1..][..m], '[', ']') > 0
      {
        NestHead(t, m + 1);
      }
    }
  }

  // ---------------------------------------------------------------- the loops

  /** The evaluator as the runtime runs it: the scans and the path walk are loops. */
  method Evaluate<V>(w: World<V>, vals: V, src: string) returns (v: V)
    ensures v == Resolve(w, Names(w, vals), src)
    decreases |src|, 3
  {
    var expr := Trim(src);
    if expr == "" { return w.undef; }
    if expr[0] == '(' && expr[|expr| - 1] == ')' {
      var whole := ParensWrapWhole(expr);
      if whole {
        v := Evaluate(w, vals, expr[1..|expr| - 1]);
        return;
      }
    }
    var eq := FindTopLevelEquality(expr);
    if eq.Some? {
      var lv := Evaluate(w, vals, expr[..eq.value.index]);
      var rv := Evaluate(w, vals, expr[eq.value.index + |eq.value.op|..]);
      return w.Compare(eq.value.op, lv, rv);
    }
    v := EvaluateOperand(w, vals, expr);
  }

  /** What is left when there are neither brackets around the text nor an equality in it. */
  method EvaluateOperand<V>(w: World<V>, vals: V, expr: string) returns (v: V)
    requires expr != "" && !IsWrapped(expr) && FirstTopEq(expr, 0).None?
    ensures v == ResolveTrimmed(w, Names(w, vals), expr)
    decreases |expr|, 2
  {
    if expr[0] == '!' {
      var x := Evaluate(w, vals, expr[1..]);
      return w.bool_(!w.truthy(x));
    }
    var constant := Constant(w, expr);
    if constant.Some? { return constant.value; }
    v := WalkPath(w, vals, expr);
  }

  ghost predicate NeverCloses(t: string) {
    forall k | 0 <= k < |t| :: !Closes(t, 1, k)
  }

  lemma NoneCloses(t: string)
    requires NeverCloses(t)
    ensures FindClose(t, 1).None?
  {
    var close := FindClose(t, 1);
    if close.Some? { FindCloseIsFirst(t, 1, close.value); }
  }

  /** The inner loop of a path step: the closing bracket, or the end of the text if there is none. */
  method MatchBracket(expr: string, start: nat) returns (j: nat)
    requires 0 < start <= |expr|
    ensures start <= j <= |expr|
    ensures FindClose(expr[start..], 1) == if j < |expr| then Some(j - start) else None
  {
    ghost var t := expr[start..];
    var depth: nat := 1;
    j := start;
    while j < |expr| && depth > 0
      invariant start <= j <= |expr|
      invariant depth == 1 + Nest(t[..j - start], '[', ']') && depth > 0
      invariant forall m | 0 <= m <= j - start :: 1 + Nest(t[..m], '[', ']') > 0
    {
      NestSnoc(t, j - start);
      if expr[j] == '[' {
        depth := depth + 1;
      } else if expr[j] == ']' {
        depth := depth - 1;
        if depth == 0 {
          FindCloseIsFirst(t, 1, j - start);
          return;
        }
      }
      j := j + 1;
    }
    assert NeverCloses(t);
    NoneCloses(t);
  }

  lemma NestSnoc(t: string, n: nat)
    requires n < |t|
    ensures Nest(t[..n + 1], '[', ']') ==
            Nest(t[..n], '[', ']') + (if t[n] == '[' then 1 else if t[n] == ']' then -1 else 0)
  {
    assert t[..n + 1][..n] == t[..n];
  }

  /** The path walk: `i` is where the next step starts, `cur` the value so far. */
  method WalkPath<V>(w: World<V>, vals: V, expr: string) returns (cur: V)
    ensures cur == ResolvePath(w, Names(w, vals), expr)
    decreases |expr|, 1
  {
    var n := IdentLength(expr);
    if n == 0 { return w.undef; }
    cur := w.Read(vals, w.text(expr[..n]));
    var i := n;
    var ok := true;
    while ok && i < |expr|
      invariant 0 < i <= |expr|
      invariant ok ==> PathFrom(w, Names(w, vals), expr[i..], cur) == ResolvePath(w, Names(w, vals), expr)
      invariant !ok ==> cur == ResolvePath(w, Names(w, vals), expr)
      decreases ok, |expr| - i
    {
      if expr[i] == '.' {
        ok, i, cur := WalkDot(w, vals, expr, i, cur);
      } else if expr[i] == '[' {
        ok, i, cur := WalkIndex(w, vals, expr, i, cur);
      } else {
        return w.undef;
      }
    }
  }

  /** One dotted step; `ok` is false when the text after the dot is no key. */
  method WalkDot<V>(w: World<V>, vals: V, expr: string, i: nat, cur: V) returns (ok: bool, j: nat, v: V)
    requires 0 < i < |expr| && expr[i] == '.'
    ensures i < j <= |expr|
    ensures PathFrom(w, Names(w, vals), expr[i..], cur) == if ok then PathFrom(w, Names(w, vals), expr[j..], v) else v
  {
    var m := KeyLength(expr[i + 1..]);
    DotUnfold(w, Names(w, vals), expr, i, cur);
    if m == 0 { return false, i + 1, w.undef; }
    return true, i + 1 + m, w.Read(cur, w.text(expr[i + 1..i + 1 + m]));
  }

  /** One bracketed step; `ok` is false when the bracket is never closed. */
  method WalkIndex<V>(w: World<V>, vals: V, expr: string, i: nat, cur: V) returns (ok: bool, j: nat, v: V)
    requires 0 < i < |expr| && expr[i] == '['
    ensures i < j <= |expr|
    ensures ok ==> PathFrom(w, Names(w, vals), expr[i..], cur) == PathFrom(w, Names(w, vals), expr[j..], v)
    ensures !ok ==> PathFrom(w, Names(w, vals), expr[i..], cur) == v
    decreases |expr|, 0
  {
    j := MatchBracket(expr, i + 1);
    if j == |expr| {
      Unclosed(w, Names(w, vals), expr, i, cur);
      return false, j, w.undef;
    }
    j, v := ReadIndex(w, vals, expr, i, j, cur);
    ok := true;
  }

  /** The read itself, once the closing bracket is found. */
  method ReadIndex<V>(w: World<V>, vals: V, expr: string, i: nat, close: nat, cur: V) returns (j: nat, v: V)
    requires 0 < i < close < |expr| && expr[i] == '[' && FindClose(expr[i + 1..], 1) == Some(close - i - 1)
    ensures i < j <= |expr|
    ensures PathFrom(w, Names(w, vals), expr[i..], cur) == PathFrom(w, Names(w, vals), expr[j..], v)
    decreases close - i, 0
  {
    var key := Evaluate(w, vals, expr[i + 1..close]);
    j, v := close + 1, w.Read(cur, key);
    IndexUnfold(w, Names(w, vals), expr, i, close, cur, j, v);
  }

  lemma DotUnfold<V>(w: World<V>, look: Lookup<V>, s: string, i: nat, cur: V)
    requires 0 < i < |s| && s[i] == '.'
    ensures var n := KeyLength(s[i + 1..]);
            PathFrom(w, look, s[i..], cur) ==
            if n == 0 then w.undef
            else PathFrom(w, look, s[i + 1 + n..], w.Read(cur, w.text(s[i + 1..i + 1 + n])))
  {
    var rest, n := s[i..], KeyLength(s[i + 1..]);
    assert rest[1..] == s[i + 1..] && rest[1 + n..] == s[i + 1 + n..] && rest[1..1 + n] == s[i + 1..i + 1 + n];
  }

  lemma IndexUnfold<V>(w: World<V>, look: Lookup<V>, s: string, i: nat, close: nat, cur: V, j: nat, v: V)
    requires 0 < i < close < |s| && s[i] == '[' && FindClose(s[i + 1..], 1) == Some(close - i - 1)
    requires j == close + 1 && v == w.Read(cur, Resolve(w, look, s[i + 1..close]))
    ensures PathFrom(w, look, s[i..], cur) == PathFrom(w, look, s[j..], v)
  {
    var rest, k := s[i..], close - i - 1;
    assert rest[1..] == s[i + 1..];
    assert rest[k + 2..] == s[j..] && rest[1..k + 1] == s[i + 1..close];
  }

  lemma Unclosed<V>(w: World<V>, look: Lookup<V>, s: string, i: nat, cur: V)
    requires 0 < i < |s| && s[i] == '[' && FindClose(s[i + 1..], 1).None?
    ensures PathFrom(w, look, s[i..], cur) == w.undef
  {
    assert s[i..][1..] == s[i + 1..];
  }
}
