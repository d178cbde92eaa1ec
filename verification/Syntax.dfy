/**
 Expressions as trees, their meaning, and how they are written. The evaluator of module Evaluator
 never builds such a tree; RoundTrip shows that it computes the meaning of the tree all the same.
 */
module Syntax {
  import opened Text
  import opened Scan
  import opened Evaluator

  datatype EqOp = Same | NotSame | Loose | NotLoose

  function OpText(op: EqOp): string {
    match op
    case Same => "==="
    case NotSame => "!=="
    case Loose => "=="
    case NotLoose => "!="
  }

  /** A tree carries the blanks it is written with; they have no meaning. */
  datatype Expr =
    | True
    | False
    | Null
    | Undefined
    | Number(digits: string)
    | Quoted(quote: char, body: string)
    | Path(path: PathExpr)
    | Not(gap: string, e: Expr)
    | Equal(left: Expr, before: string, op: EqOp, after: string, right: Expr)
    | Paren(pre: string, inner: Expr, post: string)

  datatype PathExpr =
    | Var(name: string)
    | Dot(base: PathExpr, key: string)
    | Index(base: PathExpr, pre: string, index: Expr, post: string)

  const RESERVED: seq<string> := ["true", "false", "null", "undefined"]

  /**
   The trees whose text the scans can read back. Quotes do not stop the scans, so the body of a
   literal must be balanced and free of `==` and `!=` outside its own brackets; a body without
   brackets and without those two operators always qualifies.
   */
  ghost predicate Valid(e: Expr) {
    match e
    case True | False | Null | Undefined => true
    case Number(d) => IsNumber(d)
    case Quoted(q, body) => (q == '"' || q == '\'') && Balanced(body) && EqFree(body)
    case Path(p) => ValidPath(p) && (p.Var? ==> p.name !in RESERVED)
    case Not(gap, x) => AllBlank(gap) && Valid(x)
    case Equal(l, before, _, after, r) => Valid(l) && AllBlank(before) && AllBlank(after) && Valid(r)
    case Paren(pre, x, post) => AllBlank(pre) && Valid(x) && AllBlank(post)
  }

  ghost predicate ValidPath(p: PathExpr) {
    match p
    case Var(name) => IsIdent(name)
    case Dot(base, key) => ValidPath(base) && (IsIdent(key) || IsDigits(key))
    case Index(base, pre, index, post) => ValidPath(base) && AllBlank(pre) && Valid(index) && AllBlank(post)
  }

  /** The text of a tree. Operands of `!` and left operands get brackets only when they are equalities. */
  function Print(e: Expr): string
    decreases e, 0
  {
    match e
    case True => "true"
    case False => "false"
    case Null => "null"
    case Undefined => "undefined"
    case Number(d) => d
    case Quoted(q, body) => [q] + body + [q]
    case Path(p) => PrintPath(p)
    case Not(gap, x) => "!" + (gap + PrintOperand(x))
    case Equal(l, before, op, after, r) => (PrintOperand(l) + before) + OpText(op) + (after + Print(r))
    case Paren(pre, x, post) => "(" + (pre + Print(x) + post) + ")"
  }

  function PrintOperand(e: Expr): string
    decreases e, 1
  {
    if e.Equal? then "(" + Print(e) + ")" else Print(e)
  }

  function PrintPath(p: PathExpr): string {
    match p
    case Var(name) => name
    case Dot(base, key) => PrintPath(base) + ("." + key)
    case Index(base, pre, index, post) => PrintPath(base) + ("[" + (pre + Print(index) + post) + "]")
  }

  /** The meaning of a tree, by structure and without any text. */
  function Denote<V>(w: World<V>, look: Lookup<V>, e: Expr): V {
    match e
    case True => w.bool_(true)
    case False => w.bool_(false)
    case Null => w.nil
    case Undefined => w.undef
    case Number(d) => w.number(d)
    case Quoted(_, body) => w.text(body)
    case Path(p) => DenotePath(w, look, p)
    case Not(_, x) => w.bool_(!w.truthy(Denote(w, look, x)))
    case Equal(l, _, op, _, r) =>
      var a := Denote(w, look, l);
      var b := Denote(w, look, r);
      (match op
       case Same => w.bool_(w.strictEq(a, b))
       case NotSame => w.bool_(!w.strictEq(a, b))
       case Loose => w.bool_(w.looseEq(a, b))
       case NotLoose => w.bool_(!w.looseEq(a, b)))
    case Paren(_, x, _) => Denote(w, look, x)
  }

  function DenotePath<V>(w: World<V>, look: Lookup<V>, p: PathExpr): V {
    match p
    case Var(name) => look(name)
    case Dot(base, key) => w.Read(DenotePath(w, look, base), w.text(key))
    case Index(base, _, index, _) => w.Read(DenotePath(w, look, base), Denote(w, look, index))
  }

  // ---------------------------------------------------------------- the shape of printed text

  /** What the scans may rely on in the text of an operand. */
  ghost predicate Shape(t: string) {
    && Solid(t) && Balanced(t)
    && t[0] != '=' && !IsEqChar(t[|t| - 1])
  }

  lemma BlankText(s: string)
    requires AllBlank(s)
    ensures Balanced(s) && EqFree(s)
  {
    PlainBalanced(s);
  }

  lemma PadBalanced(pre: string, t: string, post: string)
    requires AllBlank(pre) && Balanced(t) && AllBlank(post)
    ensures Balanced(pre + t + post)
  {
    BlankText(pre);
    BlankText(post);
    BalancedConcat(pre, t);
    BalancedConcat(pre + t, post);
  }

  /** A text of identifier characters, digits, points and minus signs. */
  lemma WordShape(t: string)
    requires t != "" && !IsEqChar(t[|t| - 1])
    requires forall i | 0 <= i < |t| :: IsIdentPart(t[i]) || t[i] == '-' || t[i] == '.'
    ensures Shape(t) && EqFree(t)
  {
    PlainBalanced(t);
  }

  lemma BracketShape(t: string)
    requires Balanced(t)
    ensures Shape("(" + t + ")") && EqFree("(" + t + ")")
  {
    WrapBalanced(t, true);
    WrapEqFree(t, true);
  }

  lemma QuotedShape(q: char, body: string)
    requires (q == '"' || q == '\'') && Balanced(body) && EqFree(body)
    ensures Shape([q] + body + [q]) && EqFree([q] + body + [q])
  {
    PlainBalanced([q]);
    BalancedConcat([q], body);
    BalancedConcat([q] + body, [q]);
    EqFreeConcat([q], body);
    EqFreeConcat([q] + body, [q]);
  }

  /** A literal without brackets and without `==` and `!=` can always be read back. */
  lemma PlainLiteralValid(q: char, body: string)
    requires q == '"' || q == '\''
    requires forall i | 0 <= i < |body| :: !IsBracket(body[i]) && !EqPairAt(body, i)
    ensures Valid(Quoted(q, body))
  {
    PlainBalanced(body);
  }

  lemma {:induction false} PrintShape(e: Expr)
    requires Valid(e)
    ensures Shape(Print(e))
    ensures !e.Equal? ==> EqFree(Print(e))
    decreases e, 0
  {
    match e
    case True => WordShape("true");
    case False => WordShape("false");
    case Null => WordShape("null");
    case Undefined => WordShape("undefined");
    case Number(d) =>
      NumberMembers(d);
      WordShape(d);
    case Quoted(q, body) => QuotedShape(q, body);
    case Path(p) => PathShape(p);
    case Not(gap, x) =>
      OperandShape(x);
      NotShape(gap, PrintOperand(x));
    case Equal(l, before, op, after, r) =>
      OperandShape(l);
      PrintShape(r);
      EqualShape(PrintOperand(l), before, op, after, Print(r));
    case Paren(pre, x, post) =>
      PrintShape(x);
      PadBalanced(pre, Print(x), post);
      BracketShape(pre + Print(x) + post);
  }

  lemma {:induction false} OperandShape(e: Expr)
    requires Valid(e)
    ensures Shape(PrintOperand(e)) && EqFree(PrintOperand(e))
    decreases e, 1
  {
    PrintShape(e);
    if e.Equal? { BracketShape(Print(e)); }
  }

  lemma NotShape(gap: string, t: string)
    requires AllBlank(gap) && Shape(t) && EqFree(t)
    ensures Shape("!" + (gap + t)) && EqFree("!" + (gap + t))
  {
    PlainBalanced("!");
    BlankText(gap);
    BalancedConcat(gap, t);
    BalancedConcat("!", gap + t);
    EqFreeConcat(gap, t);
    EqFreeConcat("!", gap + t);
  }

  lemma EqualShape(l: string, before: string, op: EqOp, after: string, r: string)
    requires Shape(l) && AllBlank(before) && AllBlank(after) && Shape(r)
    ensures Shape((l + before) + OpText(op) + (after + r))
  {
    BlankText(before);
    BlankText(after);
    PlainBalanced(OpText(op));
    BalancedConcat(l, before);
    BalancedConcat(l + before, OpText(op));
    BalancedConcat(after, r);
    BalancedConcat(l + before + OpText(op), after + r);
  }

  lemma {:induction false} PathShape(p: PathExpr)
    requires ValidPath(p)
    ensures Shape(PrintPath(p)) && EqFree(PrintPath(p))
    ensures IsIdentStart(PrintPath(p)[0])
  {
    match p
    case Var(name) =>
      IdentMembers(name);
      WordShape(name);
    case Dot(base, key) =>
      PathShape(base);
      if IsIdent(key) { IdentMembers(key); } else { RunMembers(key, IsDigit); }
      WordShape(key);
      DotShape(PrintPath(base), key);
    case Index(base, pre, index, post) =>
      PathShape(base);
      PrintShape(index);
      PadBalanced(pre, Print(index), post);
      IndexShape(PrintPath(base), pre + Print(index) + post);
  }

  lemma DotShape(b: string, key: string)
    requires Shape(b) && EqFree(b) && Shape(key) && EqFree(key)
    ensures Shape(b + ("." + key)) && EqFree(b + ("." + key)) && (b + ("." + key))[0] == b[0]
  {
    PlainBalanced(".");
    BalancedConcat(".", key);
    BalancedConcat(b, "." + key);
    EqFreeConcat(".", key);
    EqFreeConcat(b, "." + key);
  }

  lemma IndexShape(b: string, t: string)
    requires Shape(b) && EqFree(b) && Balanced(t)
    ensures Shape(b + ("[" + t + "]")) && EqFree(b + ("[" + t + "]")) && (b + ("[" + t + "]"))[0] == b[0]
  {
    var s := "[" + t + "]";
    WrapBalanced(t, false);
    WrapEqFree(t, false);
    BalancedConcat(b, s);
    EqFreeConcat(b, s);
    assert s[0] == '[' && s[|s| - 1] == ']';
  }
}
