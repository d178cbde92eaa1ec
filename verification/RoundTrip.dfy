/** Evaluating the text of a tree gives the meaning of the tree. */
module RoundTrip {
  import opened Prelude
  import opened Text
  import opened Scan
  import opened Evaluator
  import opened Syntax

  // ---------------------------------------------------------------- one step of the evaluator

  lemma NoOperator(t: string)
    requires EqFree(t)
    ensures FirstTopEq(t, 0).None?
  {
  }

  /** Blanks around a text do not matter. */
  lemma ResolvePadded<V>(w: World<V>, look: Lookup<V>, pre: string, t: string, post: string)
    requires AllBlank(pre) && Solid(t) && AllBlank(post)
    ensures Resolve(w, look, pre + t + post) == Resolve(w, look, t)
  {
    TrimOfPadded(pre, t, post);
    TrimSolid(t);
  }

  lemma TrimSolid(t: string)
    requires Solid(t)
    ensures Trim(t) == t
  {
    TrimOfPadded("", t, "");
    assert "" + t + "" == t;
  }

  /** Enclosing brackets change nothing. */
  lemma ResolveBracketed<V>(w: World<V>, look: Lookup<V>, t: string)
    requires Balanced(t)
    ensures Resolve(w, look, "(" + t + ")") == Resolve(w, look, t)
  {
    var s := "(" + t + ")";
    TrimSolid(s);
    forall k | 0 < k < |s|
      ensures Nest(s[..k], '(', ')') != 0
    {
      WrapNest(t, '(', ')', k);
    }
    assert IsWrapped(s);
    assert s[1..|s| - 1] == t;
  }

  lemma ResolveEquality<V>(w: World<V>, look: Lookup<V>, l: string, op: EqOp, r: string)
    requires var t := l + OpText(op) + r;
             Solid(t) && !IsWrapped(t) && FirstTopEq(t, 0) == Some(|l|) && OpAt(t, |l|) == OpText(op)
    ensures Resolve(w, look, l + OpText(op) + r) == w.Compare(OpText(op), Resolve(w, look, l), Resolve(w, look, r))
  {
    var t := l + OpText(op) + r;
    TrimSolid(t);
    assert t[..|l|] == l;
    assert t[|l| + |OpText(op)|..] == r;
  }

  /** What is left once no bracket encloses the text and no operator splits it. */
  lemma ResolveNot<V>(w: World<V>, look: Lookup<V>, t: string)
    requires Solid(t) && EqFree(t) && t[0] == '!'
    ensures Resolve(w, look, t) == w.bool_(!w.truthy(Resolve(w, look, t[1..])))
  {
    TrimSolid(t);
    NoOperator(t);
  }

  predicate IsAtom(t: string) {
    Solid(t) && FirstTopEq(t, 0).None? && t[0] != '!' && t[0] != '('
  }

  lemma ResolveWord<V>(w: World<V>, look: Lookup<V>, t: string)
    requires IsAtom(t)
    ensures t == "true" ==> Resolve(w, look, t) == w.bool_(true)
    ensures t == "false" ==> Resolve(w, look, t) == w.bool_(false)
    ensures t == "null" ==> Resolve(w, look, t) == w.nil
    ensures t == "undefined" ==> Resolve(w, look, t) == w.undef
  {
    TrimSolid(t);
  }

  predicate IsWord(t: string) {
    t == "true" || t == "false" || t == "null" || t == "undefined"
  }

  lemma ResolveNumber<V>(w: World<V>, look: Lookup<V>, t: string)
    requires IsAtom(t) && IsNumber(t)
    ensures Resolve(w, look, t) == w.number(t)
  {
    TrimSolid(t);
    NumberStart(t);
  }

  lemma NumberStart(t: string)
    requires IsNumber(t)
    ensures t != "" && (IsDigit(t[0]) || t[0] == '-')
    ensures !IsWord(t) && !IsQuoted(t)
  {
  }

  lemma ResolveQuoted<V>(w: World<V>, look: Lookup<V>, t: string)
    requires IsAtom(t) && IsQuoted(t)
    ensures Resolve(w, look, t) == w.text(t[1..|t| - 1])
  {
    TrimSolid(t);
    if IsNumber(t) { NumberStart(t); }
  }

  lemma ResolveOther<V>(w: World<V>, look: Lookup<V>, t: string)
    requires IsAtom(t) && !IsWord(t) && !IsNumber(t) && !IsQuoted(t)
    ensures Resolve(w, look, t) == ResolvePath(w, look, t)
  {
    TrimSolid(t);
  }

  // ---------------------------------------------------------------- where an equality splits

  /** An operand that starts with a round bracket ends with its partner. */
  lemma OperandBracket(e: Expr)
    requires Valid(e) && PrintOperand(e) != "" && PrintOperand(e)[0] == '('
    ensures PrintOperand(e)[|PrintOperand(e)| - 1] == ')'
  {
    match e
    case Path(p) => PathShape(p);
    case Number(d) => NumberMembers(d);
    case Not(_, _) => assert false;
    case _ =>
  }

  /** The left text of an operator: it ends with no operator sign and holds none outside brackets. */
  ghost predicate LeftText(l: string) {
    l != "" && !IsBlank(l[0]) && !IsEqChar(l[|l| - 1]) && Balanced(l) && EqFree(l)
  }

  lemma OperatorAt(l: string, op: EqOp, rest: string)
    requires LeftText(l) && rest != "" && rest[0] != '='
    ensures var t := l + OpText(op) + rest; TopEqAt(t, |l|) && OpAt(t, |l|) == OpText(op)
  {
    var t := l + OpText(op) + rest;
    var i := |l|;
    assert t[..i] == l;
    assert t[i] == OpText(op)[0] && t[i + 1] == OpText(op)[1];
    assert t[i + 2] == (if |OpText(op)| == 3 then '=' else rest[0]);
    assert t[i - 1] == l[i - 1];
  }

  lemma NoOperatorBefore(l: string, op: EqOp, rest: string, j: nat)
    requires LeftText(l) && j < |l|
    ensures !TopEqAt(l + OpText(op) + rest, j)
  {
    var t := l + OpText(op) + rest;
    if EqPairAt(t, j) {
      assert t[j] == l[j];
      assert j != |l| - 1;
      assert t[j + 1] == l[j + 1];
      assert EqPairAt(l, j) && t[..j] == l[..j];
    }
  }

  /** The operator behind a left text is the one the scan finds. */
  lemma LeftmostOperator(l: string, op: EqOp, rest: string)
    requires LeftText(l) && rest != "" && rest[0] != '='
    ensures FirstTopEq(l + OpText(op) + rest, 0) == Some(|l|)
    ensures OpAt(l + OpText(op) + rest, |l|) == OpText(op)
  {
    var t := l + OpText(op) + rest;
    OperatorAt(l, op, rest);
    forall j | 0 <= j < |l| ensures !TopEqAt(t, j) { NoOperatorBefore(l, op, rest, j); }
    FirstTopEqUnique(t, |l|);
  }

  /** An equality is not mistaken for one bracketed expression, even if both its ends are brackets. */
  lemma EqualityNotWrapped(l: string, rest: string)
    requires l != "" && Balanced(l) && rest != ""
    requires l[0] == '(' ==> l[|l| - 1] == ')'
    ensures !IsWrapped(l + rest)
  {
    var t := l + rest;
    assert t[0] == l[0] && t[|l| - 1] == l[|l| - 1];
    assert t[..|l|] == l;
  }

  /** What a left operand with its trailing blanks offers to the scan. */
  lemma LeftSide(l: string, before: string)
    requires Shape(l) && EqFree(l) && AllBlank(before)
    ensures LeftText(l + before)
  {
    BlankText(before);
    BalancedConcat(l, before);
    EqFreeConcat(l, before);
    var a := l + before;
    if before != "" { assert a[|a| - 1] == before[|before| - 1]; }
  }

  lemma RightSide(after: string, r: string)
    requires AllBlank(after) && Shape(r)
    ensures var b := after + r; b != "" && b[0] != '='
  {
  }

  lemma NotWrapped(l: string, before: string, op: EqOp, b: string)
    requires Shape(l) && (l[0] == '(' ==> l[|l| - 1] == ')')
    ensures !IsWrapped((l + before) + OpText(op) + b)
  {
    EqualityNotWrapped(l, before + OpText(op) + b);
    assert l + (before + OpText(op) + b) == (l + before) + OpText(op) + b;
  }

  /** The scan splits the text of an equality at its own operator. */
  lemma EqualMeaning<V>(w: World<V>, look: Lookup<V>, e: Expr)
    requires Valid(e) && e.Equal?
    ensures Resolve(w, look, Print(e)) ==
            w.Compare(OpText(e.op), Resolve(w, look, PrintOperand(e.left) + e.before),
                      Resolve(w, look, e.after + Print(e.right)))
  {
    var l, r := PrintOperand(e.left), Print(e.right);
    assert Solid(Print(e)) by { PrintShape(e); }
    OperandShape(e.left);
    assert Shape(r) by { PrintShape(e.right); }
    LeftSide(l, e.before);
    RightSide(e.after, r);
    LeftmostOperator(l + e.before, e.op, e.after + r);
    if l[0] == '(' { OperandBracket(e.left); }
    NotWrapped(l, e.before, e.op, e.after + r);
    ResolveEquality(w, look, l + e.before, e.op, e.after + r);
  }

  // ---------------------------------------------------------------- the theorem

  lemma {:induction false} TreeMeaning<V>(w: World<V>, look: Lookup<V>, e: Expr)
    requires Valid(e)
    ensures Resolve(w, look, Print(e)) == Denote(w, look, e)
    decreases e, 0
  {
    match e
    case True | False | Null | Undefined =>
      AtomText(e);
      ResolveWord(w, look, Print(e));
    case Number(d) =>
      AtomText(e);
      ResolveNumber(w, look, d);
    case Quoted(q, body) =>
      AtomText(e);
      QuotedLayout(q, body);
      ResolveQuoted(w, look, [q] + body + [q]);
    case Path(p) =>
      AtomText(e);
      PathText(p);
      ResolveOther(w, look, PrintPath(p));
      PathMeaning(w, look, p, "");
      assert PrintPath(p) + "" == PrintPath(p);
    case Not(gap, x) =>
      PrintShape(e);
      NotLayout(gap, PrintOperand(x));
      ResolveNot(w, look, Print(e));
      OperandMeaning(w, look, x, gap, "");
    case Equal(l, before, op, after, r) =>
      EqualMeaning(w, look, e);
      OperandMeaning(w, look, l, "", before);
      PrintedMeaning(w, look, r, after, "");
      EqualPadding(PrintOperand(l), before, after, Print(r));
      CompareMeaning(w, op, Denote(w, look, l), Denote(w, look, r));
    case Paren(a, x, b) =>
      assert Balanced(a + Print(x) + b) by {
        PrintShape(x);
        PadBalanced(a, Print(x), b);
      }
      ResolveBracketed(w, look, a + Print(x) + b);
      PrintedMeaning(w, look, x, a, b);
  }

  /** The round trip: any valid tree, in any layout, evaluates from its text to its meaning. */
  lemma {:induction false} PrintedMeaning<V>(w: World<V>, look: Lookup<V>, e: Expr, pre: string, post: string)
    requires Valid(e) && AllBlank(pre) && AllBlank(post)
    ensures Resolve(w, look, pre + Print(e) + post) == Denote(w, look, e)
    decreases e, 1
  {
    PrintShape(e);
    ResolvePadded(w, look, pre, Print(e), post);
    TreeMeaning(w, look, e);
  }

  lemma {:induction false} OperandMeaning<V>(w: World<V>, look: Lookup<V>, e: Expr, pre: string, post: string)
    requires Valid(e) && AllBlank(pre) && AllBlank(post)
    ensures Resolve(w, look, pre + PrintOperand(e) + post) == Denote(w, look, e)
    decreases e, 2
  {
    OperandShape(e);
    ResolvePadded(w, look, pre, PrintOperand(e), post);
    TreeMeaning(w, look, e);
    if e.Equal? {
      assert Balanced(Print(e)) by { PrintShape(e); }
      ResolveBracketed(w, look, Print(e));
    }
  }

  lemma QuotedLayout(q: char, body: string)
    ensures var t := [q] + body + [q]; t[1..|t| - 1] == body
  {
  }

  lemma NotLayout(gap: string, t: string)
    ensures ("!" + (gap + t))[1..] == gap + t + ""
  {
    assert gap + t + "" == gap + t;
  }

  lemma EqualPadding(l: string, before: string, after: string, r: string)
    ensures "" + l + before == l + before && after + r + "" == after + r
  {
  }

  lemma CompareMeaning<V>(w: World<V>, op: EqOp, a: V, b: V)
    ensures w.Compare(OpText(op), a, b) ==
            match op
            case Same => w.bool_(w.strictEq(a, b))
            case NotSame => w.bool_(!w.strictEq(a, b))
            case Loose => w.bool_(w.looseEq(a, b))
            case NotLoose => w.bool_(!w.looseEq(a, b))
  {
    assert OpText(op)[0] == (if op.Same? || op.Loose? then '=' else '!');
    assert |OpText(op)| == (if op.Same? || op.NotSame? then 3 else 2);
  }

  lemma AtomText(e: Expr)
    requires Valid(e) && !e.Equal? && !e.Not? && !e.Paren?
    ensures IsAtom(Print(e))
  {
    PrintShape(e);
    NoOperator(Print(e));
    if e.Path? { PathShape(e.path); }
    if e.Number? { NumberStart(e.digits); }
  }

  /** A path text is none of the things the evaluator tries before it tries a path. */
  lemma PathText(p: PathExpr)
    requires ValidPath(p) && (p.Var? ==> p.name !in RESERVED)
    ensures !IsWord(PrintPath(p)) && !IsNumber(PrintPath(p)) && !IsQuoted(PrintPath(p))
  {
    PathShape(p);
    var t := PrintPath(p);
    if IsNumber(t) { NumberStart(t); }
    match p
    case Var(name) => assert name !in RESERVED; ReservedWords();
    case Dot(base, key) => assert t[|PrintPath(base)|] == '.'; WordLetters(t);
    case Index(base, pre, index, post) => assert t[|PrintPath(base)|] == '['; WordLetters(t);
  }

  lemma ReservedWords()
    ensures forall t | IsWord(t) :: t in RESERVED
  {
    assert RESERVED[0] == "true" && RESERVED[1] == "false" && RESERVED[2] == "null" && RESERVED[3] == "undefined";
  }

  lemma WordLetters(t: string)
    ensures IsWord(t) ==> forall i | 0 <= i < |t| :: IsLower(t[i])
  {
  }

  lemma KeyLengthConcat(key: string, rest: string)
    requires IsIdent(key) || IsDigits(key)
    requires rest == "" || !IsIdentPart(rest[0])
    ensures KeyLength(key + rest) == |key|
  {
    if IsIdent(key) {
      IdentLengthConcat(key, rest);
    } else {
      RunLengthConcat(key, rest, IsDigit);
    }
  }

  /** The bracket search of an index step stops behind the balanced index text. */
  lemma IndexBracket(t: string, rest: string)
    requires Balanced(t)
    ensures FindClose(t + "]" + rest, 1) == Some(|t|)
  {
    var s := t + "]" + rest;
    forall m | 0 <= m <= |t|
      ensures Nest(s[..m], '[', ']') >= 0
    {
      assert s[..m] == t[..m];
    }
    assert s[..|t| + 1] == t + "]";
    NestConcat(t, "]", '[', ']');
    assert Nest("]", '[', ']') == -1 by { assert "]"[..0] == ""; }
    FindCloseIsFirst(s, 1, |t|);
  }

  lemma IndexText(pre: string, index: Expr, post: string)
    requires AllBlank(pre) && Valid(index) && AllBlank(post)
    ensures Balanced(pre + Print(index) + post)
  {
    PrintShape(index);
    PadBalanced(pre, Print(index), post);
  }

  lemma DotStep<V>(w: World<V>, look: Lookup<V>, key: string, rest: string, cur: V)
    requires IsIdent(key) || IsDigits(key)
    requires rest == "" || !IsIdentPart(rest[0])
    ensures PathFrom(w, look, "." + (key + rest), cur) == PathFrom(w, look, rest, w.Read(cur, w.text(key)))
  {
    var s := "." + (key + rest);
    assert s[1..] == key + rest;
    KeyLengthConcat(key, rest);
    assert s[1 + |key|..] == rest && s[1..1 + |key|] == key;
  }

  lemma IndexStep<V>(w: World<V>, look: Lookup<V>, t: string, rest: string, cur: V)
    requires Balanced(t)
    ensures PathFrom(w, look, "[" + (t + "]" + rest), cur) ==
            PathFrom(w, look, rest, w.Read(cur, Resolve(w, look, t)))
  {
    var s := "[" + (t + "]" + rest);
    assert s[1..] == t + "]" + rest;
    IndexBracket(t, rest);
    assert s[|t| + 2..] == rest && s[1..|t| + 1] == t;
  }

  /** Walking over the text of a path arrives behind it with the meaning of the path. */
  lemma {:induction false} PathMeaning<V>(w: World<V>, look: Lookup<V>, p: PathExpr, rest: string)
    requires ValidPath(p)
    requires rest == "" || rest[0] == '.' || rest[0] == '['
    ensures ResolvePath(w, look, PrintPath(p) + rest) == PathFrom(w, look, rest, DenotePath(w, look, p))
    decreases p, 0
  {
    match p
    case Var(name) => VarStep(w, look, name, rest);
    case Dot(base, key) =>
      PathMeaning(w, look, base, "." + (key + rest));
      DotStep(w, look, key, rest, DenotePath(w, look, base));
      StepText(PrintPath(base), ".", key, "", rest);
    case Index(base, pre, index, post) =>
      var t := pre + Print(index) + post;
      PathMeaning(w, look, base, "[" + (t + "]" + rest));
      IndexText(pre, index, post);
      IndexStep(w, look, t, rest, DenotePath(w, look, base));
      PrintedMeaning(w, look, index, pre, post);
      StepText(PrintPath(base), "[", t, "]", rest);
  }

  lemma VarStep<V>(w: World<V>, look: Lookup<V>, name: string, rest: string)
    requires IsIdent(name)
    requires rest == "" || !IsIdentPart(rest[0])
    ensures ResolvePath(w, look, name + rest) == PathFrom(w, look, rest, look(name))
  {
    IdentLengthConcat(name, rest);
    assert (name + rest)[..|name|] == name && (name + rest)[|name|..] == rest;
  }

  lemma StepText(b: string, open: string, t: string, close: string, rest: string)
    ensures (b + (open + t + close)) + rest == b + (open + (t + close + rest))
    ensures (b + (open + t)) + rest == b + (open + (t + rest))
  {
  }

  // ---------------------------------------------------------------- consequences

  lemma EqualText<V>(w: World<V>, look: Lookup<V>, a: Expr, op: EqOp, b: Expr)
    requires Valid(a) && Valid(b) && !a.Equal?
    ensures Resolve(w, look, Print(a) + OpText(op) + Print(b)) ==
            w.Compare(OpText(op), Denote(w, look, a), Denote(w, look, b))
  {
    var e := Equal(a, "", op, "", b);
    TreeMeaning(w, look, e);
    CompareMeaning(w, op, Denote(w, look, a), Denote(w, look, b));
    EqualLayout(a, op, b);
  }

  lemma EqualLayout(a: Expr, op: EqOp, b: Expr)
    requires !a.Equal?
    ensures Print(Equal(a, "", op, "", b)) == Print(a) + OpText(op) + Print(b)
  {
    assert Print(a) + "" == Print(a);
    assert "" + Print(b) == Print(b);
  }

  /** Chains of equalities group to the right, whatever the operators. */
  lemma EqualityGroupsRight<V>(w: World<V>, look: Lookup<V>, a: Expr, op1: EqOp, b: Expr, op2: EqOp, c: Expr)
    requires Valid(a) && Valid(b) && Valid(c) && !a.Equal? && !b.Equal?
    ensures Resolve(w, look, Print(a) + OpText(op1) + (Print(b) + OpText(op2) + Print(c))) ==
            w.Compare(OpText(op1), Denote(w, look, a),
                      w.Compare(OpText(op2), Denote(w, look, b), Denote(w, look, c)))
  {
    var e := Equal(b, "", op2, "", c);
    EqualText(w, look, a, op1, e);
    EqualLayout(b, op2, c);
    CompareMeaning(w, op2, Denote(w, look, b), Denote(w, look, c));
  }

  /** `!` takes only the operand next to it, not the whole comparison. */
  lemma NotBindsTighter<V>(w: World<V>, look: Lookup<V>, a: Expr, op: EqOp, b: Expr)
    requires Valid(a) && Valid(b) && !a.Equal?
    ensures Resolve(w, look, "!" + Print(a) + OpText(op) + Print(b)) ==
            w.Compare(OpText(op), w.bool_(!w.truthy(Denote(w, look, a))), Denote(w, look, b))
  {
    EqualText(w, look, Not("", a), op, b);
    assert "" + Print(a) == Print(a);
  }

  /** The result of any comparison is one of the two booleans. */
  lemma CompareIsBool<V>(w: World<V>, op: string, a: V, b: V)
    ensures w.Compare(op, a, b) == w.bool_(true) || w.Compare(op, a, b) == w.bool_(false)
  {
    assert forall t: bool :: w.bool_(t) == if t then w.bool_(true) else w.bool_(false);
  }

  lemma ResolveSplit<V>(w: World<V>, look: Lookup<V>, t: string)
    requires Solid(t) && !IsWrapped(t) && FirstTopEq(t, 0).Some?
    ensures Resolve(w, look, t) == w.bool_(true) || Resolve(w, look, t) == w.bool_(false)
  {
    TrimSolid(t);
    var i := FirstTopEq(t, 0).value;
    var op := OpAt(t, i);
    CompareIsBool(w, op, Resolve(w, look, t[..i]), Resolve(w, look, t[i + |op|..]));
  }

  /**
   Quotes do not hide an operator. A quoted text evaluates to its own body exactly
   when the scan accepts no operator in it.
   */
  lemma QuotedTextExact<V>(w: World<V>, look: Lookup<V>, q: char, body: string)
    requires q == '"' || q == '\''
    requires forall b: bool, s: string :: w.bool_(b) != w.text(s)
    ensures Resolve(w, look, [q] + body + [q]) == w.text(body) <==>
            forall i | 0 <= i < |body| + 2 :: !TopEqAt([q] + body + [q], i)
  {
    var t := [q] + body + [q];
    if FirstTopEq(t, 0).Some? {
      ResolveSplit(w, look, t);
    } else {
      QuotedLayout(q, body);
      ResolveQuoted(w, look, t);
    }
  }

  /** For instance `"a==b"` is read as a comparison of two malformed halves. */
  lemma QuotedOperatorExample<V>(w: World<V>, look: Lookup<V>)
    ensures Resolve(w, look, "\"a==b\"") == w.bool_(w.looseEq(w.undef, w.undef))
  {
    var l, r := "\"a", "b\"";
    assert Balanced(l) && Balanced(r) by { PlainBalanced(l); PlainBalanced(r); }
    LeftmostOperator(l, Loose, r);
    assert "\"a==b\"" == l + OpText(Loose) + r;
    ResolveEquality(w, look, l, Loose, r);
    CompareMeaning(w, Loose, Resolve(w, look, l), Resolve(w, look, r));
    HalfLiteral(w, look, l);
    HalfLiteral(w, look, r);
  }

  lemma HalfLiteral<V>(w: World<V>, look: Lookup<V>, t: string)
    requires t == "\"a" || t == "b\""
    ensures Resolve(w, look, t) == w.undef
  {
    NoOperator(t);
    if IsNumber(t) { NumberStart(t); }
    ResolveOther(w, look, t);
    assert t[1..] == "a" || t[1..] == "\"";
  }
}
