/**
 What a compiled template shows, node by node, said about the closures themselves: texts with holes,
 attributes, conditionals, loops and elements.
 */
module TemplateShows {
  import opened Prelude
  import opened Text
  import opened Scan
  import opened Evaluator
  import opened Syntax
  import opened RoundTrip
  import opened Holes
  import opened Template
  import opened TemplateMeaning

  /** The compiled node, run on an object of values. */
  function Rendered<V>(page: Page<V>, n: Node, vals: V, ctx: Ctx, key: nat): Out<V>
    requires Compile(page, n).Some?
  {
    Compile(page, n).value(vals, ctx, key)
  }

  // ---------------------------------------------------------------- texts

  /** A value shows as itself, is spliced in, or shows nothing; a missing one leaves a notice, or nothing. */
  ghost predicate Shows<V>(page: Page<V>, out: Out<V>, v: V, src: string, ctx: Ctx, key: nat) {
    match page.kind(v)
    case Plain => out == Shown(key, v)
    case Rich => out == Spliced(key, v)
    case Silent => out == Nothing
    case Absent =>
      && (ctx.streaming ==> out == Pending(key, src))
      && (!ctx.streaming && ctx.editor ==> out == Unresolved(key, src))
      && (!ctx.streaming && !ctx.editor ==> out == Nothing)
  }

  lemma HolesCompile<V>(page: Page<V>, parts: seq<string>)
    requires IsSplit(parts) && |parts| > 1
    ensures Split(Join(parts)) == parts && FirstPair(Join(parts), '{', 0).Some?
    ensures Compile(page, Txt(Join(parts))).Some?
  {
    SplitUnique(parts);
    SplitNeedsHole(Join(parts));
  }

  lemma SplitNeedsHole(s: string)
    requires |Split(s)| > 1
    ensures FirstPair(s, '{', 0).Some?
  {
  }

  /** What part `k` of a text shows. */
  ghost predicate PartShows<V>(page: Page<V>, out: Out<V>, part: string, k: nat, vals: V, ctx: Ctx) {
    if k % 2 == 0 then out == Literal(part)
    else Shows(page, out, Resolve(page.w, Names(page.w, vals), part), Trim(part), ctx, k)
  }

  /** A text with holes renders part by part: literals as they are, each hole as its value shows. */
  lemma TextShows<V>(page: Page<V>, parts: seq<string>, vals: V, ctx: Ctx, key: nat)
    requires IsSplit(parts) && |parts| > 1
    ensures Compile(page, Txt(Join(parts))).Some?
    ensures var out := Rendered(page, Txt(Join(parts)), vals, ctx, key);
            && out.Fragment? && out.key == key && |out.kids| == |parts|
            && forall k | 0 <= k < |parts| :: PartShows(page, out.kids[k], parts[k], k, vals, ctx)
  {
    HolesCompile(page, parts);
    PartsShow(page, parts, vals, ctx);
  }

  lemma PartsShow<V>(page: Page<V>, parts: seq<string>, vals: V, ctx: Ctx)
    ensures var outs := MapParts(parts, LiteralOut, TextHole(page, Names(page.w, vals), ctx), 0);
            |outs| == |parts| && forall k | 0 <= k < |parts| :: PartShows(page, outs[k], parts[k], k, vals, ctx)
  {
    var hole := TextHole(page, Names(page.w, vals), ctx);
    var outs := MapParts(parts, LiteralOut, hole, 0);
    forall k | 0 <= k < |parts| ensures PartShows(page, outs[k], parts[k], k, vals, ctx) {
      assert outs[k] == if k % 2 == 0 then LiteralOut(parts[k]) else hole(parts[k], k);
      HoleShows(page, parts[k], vals, ctx, k);
    }
  }

  lemma HoleShows<V>(page: Page<V>, src: string, vals: V, ctx: Ctx, key: nat)
    ensures var look := Names(page.w, vals);
            Shows(page, TextHole(page, look, ctx)(src, key), Resolve(page.w, look, src), Trim(src), ctx, key)
  {
  }

  /** The text of a tree that a hole can hold. */
  ghost predicate FitsHole(e: Expr, pre: string, post: string) {
    Valid(e) && AllBlank(pre) && AllBlank(post) && HoleBody(pre + Print(e) + post)
  }

  /** From end to end: a hole with an expression in it shows the meaning of the expression. */
  lemma ExpressionShows<V>(page: Page<V>, pre: string, e: Expr, post: string, vals: V, ctx: Ctx, key: nat)
    requires FitsHole(e, pre, post)
    ensures var n := Txt("" + "{{" + (pre + Print(e) + post) + "}}" + "");
            && Compile(page, n).Some?
            && var out := Rendered(page, n, vals, ctx, key);
               && out.Fragment? && |out.kids| == 3 && out.kids[0] == Literal("") && out.kids[2] == Literal("")
               && Shows(page, out.kids[1], Denote(page.w, Names(page.w, vals), e), Print(e), ctx, 1)
  {
    var body := pre + Print(e) + post;
    var parts := ["", body, ""];
    assert IsSplit(parts);
    assert parts[2..] == [""];
    assert Join([""]) == "";
    TextShows(page, parts, vals, ctx, key);
    assert PartShows(page, Rendered(page, Txt(Join(parts)), vals, ctx, key).kids[1], parts[1], 1, vals, ctx);
    PrintedMeaning(page.w, Names(page.w, vals), e, pre, post);
    PrintShape(e);
    TrimOfPadded(pre, Print(e), post);
  }

  /** A text without holes is itself, and is dropped exactly if it is blank without a plain space. */
  lemma LiteralShows<V>(page: Page<V>, text: string, vals: V, ctx: Ctx, key: nat)
    requires FirstPair(text, '{', 0).None?
    ensures Compile(page, Txt(text)).None? <==> forall i | 0 <= i < |text| :: IsBlank(text[i]) && text[i] != ' '
    ensures Compile(page, Txt(text)).Some? ==> Rendered(page, Txt(text), vals, ctx, key) == Literal(text)
  {
    VanishesExactly(Txt(text));
  }

  // ---------------------------------------------------------------- attributes

  /** What a value adds to a text: nothing if it is null or undefined, or else its string. */
  ghost predicate Adds<V>(page: Page<V>, s: string, v: V) {
    if page.w.nullish(v) then s == "" else s == page.str(v)
  }

  /** An attribute that is one hole, whatever blanks are around, has the value of the expression itself. */
  lemma WholeAttrValue<V>(page: Page<V>, a: string, pre: string, e: Expr, post: string, b: string, vals: V)
    requires AllBlank(a) && AllBlank(b) && AllBlank(pre) && Valid(e) && AllBlank(post)
    ensures CompileAttr(page, a + ("{{" + (pre + Print(e) + post) + "}}") + b)(vals) == Denote(page.w, Names(page.w, vals), e)
  {
    var raw, body := a + ("{{" + (pre + Print(e) + post) + "}}") + b, pre + Print(e) + post;
    PrintShape(e);
    assert body != "";
    WholeHoleExactly(raw, body);
    PrintedMeaning(page.w, Names(page.w, vals), e, pre, post);
  }

  /** Any other attribute with holes is a string: literals as they are, and what each value adds. */
  lemma MixedAttrValue<V>(page: Page<V>, parts: seq<string>, vals: V) returns (filled: seq<string>)
    requires IsSplit(parts) && |parts| > 1 && forall body :: !IsWholeHole(Join(parts), body)
    ensures CompileAttr(page, Join(parts))(vals) == page.w.text(Concat(filled)) && |filled| == |parts|
    ensures forall k | 0 <= k < |parts| ::
              if k % 2 == 0 then filled[k] == parts[k]
              else Adds(page, filled[k], Resolve(page.w, Names(page.w, vals), parts[k]))
  {
    HolesCompile(page, parts);
    var raw := Join(parts);
    if WholeHole(raw).Some? { WholeHoleExactly(raw, WholeHole(raw).value); }
    filled := MapParts(parts, Verbatim, AttrHole(page, Names(page.w, vals)), 0);
  }

  /** Joining the filled parts loses none and keeps their order. */
  lemma {:induction false} ConcatParts(a: seq<string>, s: string, b: seq<string>)
    ensures Concat(a + [s] + b) == Concat(a) + s + Concat(b)
    decreases |a|
  {
    if a == [] {
      assert a + [s] + b == [s] + b;
      assert ([s] + b)[1..] == b;
    } else {
      assert (a + [s] + b)[1..] == a[1..] + [s] + b;
      ConcatParts(a[1..], s, b);
    }
  }

  /** Without a hole an attribute is its own text. */
  lemma LiteralAttrValue<V>(page: Page<V>, raw: string, vals: V)
    requires FirstPair(raw, '{', 0).None?
    ensures CompileAttr(page, raw)(vals) == page.w.text(raw)
  {
    if WholeHole(raw).Some? {
      var body := WholeHole(raw).value;
      WholeHoleExactly(raw, body);
      var pre, post :| AllBlank(pre) && AllBlank(post) && raw == pre + ("{{" + body + "}}") + post;
      assert PairAt(raw, '{', |pre|);
    }
  }

  // ---------------------------------------------------------------- children

  /** Each of the nodes compiles to something, and `outs` are their renderings in order. */
  ghost predicate Children<V>(page: Page<V>, nodes: seq<Node>, vals: V, ctx: Ctx, outs: seq<Out<V>>) {
    && |outs| == |nodes|
    && forall j | 0 <= j < |nodes| ::
         Compile(page, nodes[j]).Some? && outs[j] == Rendered(page, nodes[j], vals, ctx, j)
  }

  ghost predicate AllCompile<V>(page: Page<V>, nodes: seq<Node>) {
    forall j | 0 <= j < |nodes| :: Compile(page, nodes[j]).Some?
  }

  lemma {:induction false} BuiltAll<V>(page: Page<V>, nodes: seq<Node>)
    requires AllCompile(page, nodes)
    ensures |CompileAll(page, nodes)| == |nodes|
    ensures forall j | 0 <= j < |nodes| :: CompileAll(page, nodes)[j] == Compile(page, nodes[j]).value
    decreases |nodes|
  {
    if nodes != [] { BuiltAll(page, nodes[1..]); }
  }

  lemma {:induction false} AppliedAt<V>(bs: seq<Builder<V>>, vals: V, ctx: Ctx, j: nat)
    ensures |ApplyAll(bs, vals, ctx, j)| == |bs|
    ensures forall k | 0 <= k < |bs| :: ApplyAll(bs, vals, ctx, j)[k] == bs[k](vals, ctx, j + k)
    decreases |bs|
  {
    if bs != [] { AppliedAt(bs[1..], vals, ctx, j + 1); }
  }

  lemma ChildrenShow<V>(page: Page<V>, nodes: seq<Node>, vals: V, ctx: Ctx)
    requires AllCompile(page, nodes)
    ensures Children(page, nodes, vals, ctx, ApplyAll(CompileAll(page, nodes), vals, ctx, 0))
  {
    BuiltAll(page, nodes);
    AppliedAt(CompileAll(page, nodes), vals, ctx, 0);
  }

  // ---------------------------------------------------------------- conditionals, loops, elements

  /**
   A conditional shows its children exactly if its value is truthy; a missing value is stood in for by the
   hint, if there is one, while the page streams.
   */
  lemma IfShows<V>(page: Page<V>, n: Node, vals: V, ctx: Ctx, key: nat)
    requires n.If? && AllCompile(page, n.kids)
    ensures Compile(page, n).Some?
    ensures var v := CompileAttr(page, n.value)(vals);
            var stand := page.kind(v) == Absent && ctx.streaming && n.hintVal.Some?;
            var out := Rendered(page, n, vals, ctx, key);
            && (!stand && page.w.truthy(v) ==> out.Fragment? && out.key == key && Children(page, n.kids, vals, ctx, out.kids))
            && (!stand && !page.w.truthy(v) ==> out == Nothing)
            && (stand ==> var hint := CompileAttr(page, n.hintVal.value)(vals);
                  if page.w.truthy(hint) then out.Fragment? && out.key == key && Children(page, n.kids, vals, ctx, out.kids)
                  else out == Nothing)
  {
    ChildrenShow(page, n.kids, vals, ctx);
  }

  lemma {:induction false} LoopedAt<V>(
      page: Page<V>, bs: seq<Builder<V>>, name: string, items: seq<V>, vals: V, ctx: Ctx, i: nat)
    ensures |ApplyLoop(page, bs, name, items, vals, ctx, i)| == |items|
    ensures forall k | 0 <= k < |items| ::
              ApplyLoop(page, bs, name, items, vals, ctx, i)[k] ==
              Fragment(i + k, ApplyAll(bs, Inner(page, vals, name, items[k], i + k), ctx, 0))
    decreases |items|
  {
    if items != [] { LoopedAt(page, bs, name, items[1..], vals, ctx, i + 1); }
  }

  /** The values of copy `i` of a loop body. */
  function CopyValues<V>(page: Page<V>, vals: V, name: string, item: V, i: nat): V {
    page.spread(page.spread(vals, name, item), "$index", page.index(i))
  }

  /** A loop renders one copy of its body an item, each with the item and its place spread into the values. */
  ghost predicate Copies<V>(page: Page<V>, n: Node, items: seq<V>, vals: V, ctx: Ctx, out: Out<V>, key: nat)
    requires n.For?
  {
    && out.Fragment? && out.key == key && |out.kids| == |items|
    && forall i | 0 <= i < |items| ::
         && out.kids[i].Fragment? && out.kids[i].key == i
         && Children(page, n.kids, CopyValues(page, vals, if n.as_ == "" then "item" else n.as_, items[i], i), ctx, out.kids[i].kids)
  }

  lemma LoopCopies<V>(page: Page<V>, n: Node, items: seq<V>, vals: V, ctx: Ctx, key: nat)
    requires n.For? && AllCompile(page, n.kids)
    ensures Copies(page, n, items, vals, ctx,
                   Fragment(key, ApplyLoop(page, CompileAll(page, n.kids), LoopName(n), items, vals, ctx, 0)), key)
  {
    var bs := CompileAll(page, n.kids);
    LoopedAt(page, bs, LoopName(n), items, vals, ctx, 0);
    forall i | 0 <= i < |items|
      ensures Children(page, n.kids, CopyValues(page, vals, LoopName(n), items[i], i), ctx,
                       ApplyAll(bs, Inner(page, vals, LoopName(n), items[i], i), ctx, 0))
    {
      ChildrenShow(page, n.kids, Inner(page, vals, LoopName(n), items[i], i), ctx);
    }
  }

  /** The items are those of the list; of anything else none, or as many missing ones as hinted while the page streams. */
  lemma ForShows<V>(page: Page<V>, n: Node, vals: V, ctx: Ctx, key: nat)
    requires n.For? && AllCompile(page, n.kids)
    ensures Compile(page, n).Some?
    ensures var list := page.items(CompileAttr(page, n.list)(vals));
            var out := Rendered(page, n, vals, ctx, key);
            && (list.Some? ==> Copies(page, n, list.value, vals, ctx, out, key))
            && (list.None? && !ctx.streaming ==> Copies(page, n, [], vals, ctx, out, key))
            && (list.None? && ctx.streaming ==> Copies(page, n, seq(n.hint, _ => page.w.undef), vals, ctx, out, key))
  {
    LoopCopies(page, n, LoopItems(page, CompileAttr(page, n.list)(vals), ctx, n.hint), vals, ctx, key);
  }

  lemma {:induction false} GottenAt<V>(page: Page<V>, attrs: seq<Attr>, vals: V)
    ensures var props := ApplyGetters(page, CompileProps(page, attrs), vals);
            && |props| == |attrs|
            && forall k | 0 <= k < |attrs| ::
                 props[k] == Prop(attrs[k].name, page.prop(attrs[k].name, CompileAttr(page, attrs[k].raw)(vals)))
    decreases |attrs|
  {
    if attrs != [] { GottenAt(page, attrs[1..], vals); }
  }

  /** An element keeps its number and tag, has its attributes as props in order, and its children. */
  lemma ElementShows<V>(page: Page<V>, n: Node, vals: V, ctx: Ctx, key: nat)
    requires n.Elem? && AllCompile(page, n.kids)
    ensures Compile(page, n).Some?
    ensures var out := Rendered(page, n, vals, ctx, key);
            && out.Element? && out.key == key && out.id == n.id && out.tag == n.tag
            && Children(page, n.kids, vals, ctx, out.kids)
            && |out.props| == |n.attrs|
            && forall k | 0 <= k < |n.attrs| ::
                 out.props[k] == Prop(n.attrs[k].name, page.prop(n.attrs[k].name, CompileAttr(page, n.attrs[k].raw)(vals)))
  {
    ChildrenShow(page, n.kids, vals, ctx);
    GottenAt(page, n.attrs, vals);
  }
}
