/** What compiled templates mean: the direct meaning, the scope of loop names, and where output comes from. */
module TemplateMeaning {
  import opened Prelude
  import opened Text
  import opened Scan
  import opened Evaluator
  import opened Holes
  import opened Template

  // ---------------------------------------------------------------- names an expression reads

  /** The names that evaluating a text can read off the values, following the evaluator. */
  function Heads(src: string): set<string>
    decreases |src|, 3
  {
    HeadsTrimmed(Trim(src))
  }

  function HeadsTrimmed(expr: string): set<string>
    decreases |expr|, 2
  {
    if expr == "" then {}
    else if IsWrapped(expr) then Heads(expr[1..|expr| - 1])
    else if FirstTopEq(expr, 0).Some? then
      var i := FirstTopEq(expr, 0).value;
      Heads(expr[..i]) + Heads(expr[i + |OpAt(expr, i)|..])
    else if expr[0] == '!' then Heads(expr[1..])
    else if expr == "true" || expr == "false" || expr == "null" || expr == "undefined" then {}
    else if IsNumber(expr) || IsQuoted(expr) then {}
    else HeadsPath(expr)
  }

  function HeadsPath(expr: string): set<string>
    decreases |expr|, 1
  {
    var n := IdentLength(expr);
    if n == 0 then {} else {expr[..n]} + HeadsFrom(expr[n..])
  }

  function HeadsFrom(rest: string): set<string>
    decreases |rest|, 0
  {
    if rest == "" then {}
    else if rest[0] == '.' then
      var n := KeyLength(rest[1..]);
      if n == 0 then {} else HeadsFrom(rest[1 + n..])
    else if rest[0] == '[' then
      var close := FindClose(rest[1..], 1);
      if close.None? then {}
      else Heads(rest[1..close.value + 1]) + HeadsFrom(rest[close.value + 2..])
    else {}
  }

  /** The same answers for some names. */
  ghost predicate Agree<V>(a: Lookup<V>, b: Lookup<V>, names: set<string>) {
    forall n | n in names :: a(n) == b(n)
  }

  /** Evaluation reads nothing but these names. */
  lemma {:induction false} ReadsOnlyHeads<V>(w: World<V>, a: Lookup<V>, b: Lookup<V>, src: string)
    requires Agree(a, b, Heads(src))
    ensures Resolve(w, a, src) == Resolve(w, b, src)
    decreases |src|, 3
  {
    ReadsTrimmed(w, a, b, Trim(src));
  }

  lemma {:induction false} ReadsTrimmed<V>(w: World<V>, a: Lookup<V>, b: Lookup<V>, expr: string)
    requires Agree(a, b, HeadsTrimmed(expr))
    ensures ResolveTrimmed(w, a, expr) == ResolveTrimmed(w, b, expr)
    decreases |expr|, 2
  {
    if expr == "" {
    } else if IsWrapped(expr) {
      ReadsOnlyHeads(w, a, b, expr[1..|expr| - 1]);
    } else if FirstTopEq(expr, 0).Some? {
      ReadsEquality(w, a, b, expr);
    } else if expr[0] == '!' {
      ReadsOnlyHeads(w, a, b, expr[1..]);
    } else if Constant(w, expr).None? {
      ReadsPath(w, a, b, expr);
    }
  }

  lemma {:induction false} ReadsEquality<V>(w: World<V>, a: Lookup<V>, b: Lookup<V>, expr: string)
    requires expr != "" && !IsWrapped(expr) && FirstTopEq(expr, 0).Some? && Agree(a, b, HeadsTrimmed(expr))
    ensures ResolveTrimmed(w, a, expr) == ResolveTrimmed(w, b, expr)
    decreases |expr|, 1
  {
    var i := FirstTopEq(expr, 0).value;
    var l, r := expr[..i], expr[i + |OpAt(expr, i)|..];
    assert Heads(l) <= HeadsTrimmed(expr) && Heads(r) <= HeadsTrimmed(expr);
    ReadsOnlyHeads(w, a, b, l);
    ReadsOnlyHeads(w, a, b, r);
  }

  lemma {:induction false} ReadsPath<V>(w: World<V>, a: Lookup<V>, b: Lookup<V>, expr: string)
    requires Agree(a, b, HeadsPath(expr))
    ensures ResolvePath(w, a, expr) == ResolvePath(w, b, expr)
    decreases |expr|, 1
  {
    var n := IdentLength(expr);
    if n > 0 {
      var head := expr[..n];
      assert head in HeadsPath(expr);
      ReadsFrom(w, a, b, expr[n..], a(head));
    }
  }

  lemma {:induction false} ReadsFrom<V>(w: World<V>, a: Lookup<V>, b: Lookup<V>, rest: string, cur: V)
    requires Agree(a, b, HeadsFrom(rest))
    ensures PathFrom(w, a, rest, cur) == PathFrom(w, b, rest, cur)
    decreases |rest|, 0
  {
    if rest == "" {
    } else if rest[0] == '.' {
      var n := KeyLength(rest[1..]);
      if n > 0 { ReadsFrom(w, a, b, rest[1 + n..], w.Read(cur, w.text(rest[1..1 + n]))); }
    } else if rest[0] == '[' {
      var close := FindClose(rest[1..], 1);
      if close.Some? {
        var inner := rest[1..close.value + 1];
        ReadsOnlyHeads(w, a, b, inner);
        ReadsFrom(w, a, b, rest[close.value + 2..], w.Read(cur, Resolve(w, a, inner)));
      }
    }
  }

  // ---------------------------------------------------------------- names a template reads

  /** The names that the holes of a text read; holes are the odd parts of its split. */
  function HoleNames(s: string): set<string> {
    OddHeads(Split(s))
  }

  function OddHeads(parts: seq<string>): set<string> {
    if |parts| < 2 then {} else Heads(parts[1]) + OddHeads(parts[2..])
  }

  lemma {:induction false} HeadsOfHole(parts: seq<string>, k: nat)
    requires k < |parts| && k % 2 == 1
    ensures Heads(parts[k]) <= OddHeads(parts)
  {
    if k > 1 { HeadsOfHole(parts[2..], k - 2); }
  }

  function NamesOfAttr(raw: string): set<string> {
    if WholeHole(raw).Some? then Heads(WholeHole(raw).value) else HoleNames(raw)
  }

  function NamesOfProps(attrs: seq<Attr>): set<string> {
    if attrs == [] then {} else NamesOfAttr(attrs[0].raw) + NamesOfProps(attrs[1..])
  }

  /** The free names of a template: a loop binds its own name and `$index`, in its body only. */
  function Free(n: Node): set<string>
    decreases n, 1
  {
    match n
    case Comment => {}
    case Txt(text) => HoleNames(text)
    case Elem(_, _, attrs, kids) => NamesOfProps(attrs) + FreeAll(kids)
    case For(_, list, _, _, kids) => NamesOfAttr(list) + (FreeAll(kids) - {LoopName(n), "$index"})
    case If(_, value, hintVal, kids) => NamesOfAttr(value) + NamesOfAttr(hintVal.GetOr("")) + FreeAll(kids)
  }

  function FreeAll(nodes: seq<Node>): set<string>
    decreases nodes, 0
  {
    if nodes == [] then {} else Free(nodes[0]) + FreeAll(nodes[1..])
  }

  lemma HoleReads<V>(w: World<V>, s: string, k: nat, a: Lookup<V>, b: Lookup<V>)
    requires Agree(a, b, HoleNames(s)) && k < |Split(s)| && k % 2 == 1
    ensures Resolve(w, a, Split(s)[k]) == Resolve(w, b, Split(s)[k])
  {
    HeadsOfHole(Split(s), k);
    ReadsOnlyHeads(w, a, b, Split(s)[k]);
  }

  /** A text shows the same when the names of its holes stand for the same. */
  lemma PiecesRead<V>(page: Page<V>, s: string, a: Lookup<V>, b: Lookup<V>, ctx: Ctx)
    requires Agree(a, b, HoleNames(s))
    ensures Pieces(s, Verbatim, AttrFill(page, a), 0) == Pieces(s, Verbatim, AttrFill(page, b), 0)
    ensures Pieces(s, LiteralOut, HoleMeaning(page, a, ctx), 0) == Pieces(s, LiteralOut, HoleMeaning(page, b, ctx), 0)
  {
    forall k | 0 <= k < |Split(s)| && k % 2 == 1
      ensures Resolve(page.w, a, Split(s)[k]) == Resolve(page.w, b, Split(s)[k])
    {
      HoleReads(page.w, s, k, a, b);
    }
    PiecesByHoles(s, Verbatim, AttrFill(page, a), AttrFill(page, b), 0);
    PiecesByHoles(s, LiteralOut, HoleMeaning(page, a, ctx), HoleMeaning(page, b, ctx), 0);
  }

  lemma WholeIsFound(raw: string, body: string)
    requires IsWholeHole(raw, body)
    ensures WholeHole(raw) == Some(body)
  {
    var pre, post :| AllBlank(pre) && AllBlank(post) && raw == pre + ("{{" + body + "}}") + post;
    var t := "{{" + body + "}}";
    TrimOfPadded(pre, t, post);
    assert t[2..|t| - 2] == body && t[..2] == "{{" && t[|t| - 2..] == "}}";
  }

  lemma FoundIsWhole(raw: string, body: string)
    requires WholeHole(raw) == Some(body)
    ensures IsWholeHole(raw, body)
  {
    var pre, post := TrimParts(raw);
    var t := Trim(raw);
    assert t == t[..2] + (t[2..|t| - 2] + t[|t| - 2..]);
    assert t == "{{" + body + "}}";
  }

  /** Matching the whole attribute against a hole finds the hole with blanks around it, and only that. */
  lemma WholeHoleExactly(raw: string, body: string)
    ensures WholeHole(raw) == Some(body) <==> IsWholeHole(raw, body)
  {
    if IsWholeHole(raw, body) { WholeIsFound(raw, body); }
    if WholeHole(raw) == Some(body) { FoundIsWhole(raw, body); }
  }

  lemma WholeIsBody(raw: string)
    ensures WholeHole(raw) == WholeBody(raw)
  {
    if WholeBody(raw).Some? {
      WholeHoleExactly(raw, WholeBody(raw).value);
    } else if WholeHole(raw).Some? {
      WholeHoleExactly(raw, WholeHole(raw).value);
    }
  }

  lemma AttrReads<V>(page: Page<V>, raw: string, a: Lookup<V>, b: Lookup<V>)
    requires Agree(a, b, NamesOfAttr(raw))
    ensures AttrValue(page, raw, a) == AttrValue(page, raw, b)
  {
    WholeIsBody(raw);
    if WholeHole(raw).Some? {
      ReadsOnlyHeads(page.w, a, b, WholeHole(raw).value);
    } else {
      PiecesRead(page, raw, a, b, Ctx(false, false));
    }
  }

  lemma {:induction false} PropsRead<V>(page: Page<V>, attrs: seq<Attr>, a: Lookup<V>, b: Lookup<V>)
    requires Agree(a, b, NamesOfProps(attrs))
    ensures DirectProps(page, attrs, a) == DirectProps(page, attrs, b)
    decreases |attrs|
  {
    if attrs != [] {
      AttrReads(page, attrs[0].raw, a, b);
      PropsRead(page, attrs[1..], a, b);
    }
  }

  /**
   Scope: the meaning of a template depends on its free names only. As a loop binds its name and
   `$index`, these are visible inside the loop body and nowhere else.
   */
  lemma {:induction false} DependsOnFree<V>(page: Page<V>, n: Node, a: Lookup<V>, b: Lookup<V>, ctx: Ctx, key: nat)
    requires Agree(a, b, Free(n))
    ensures Direct(page, n, a, ctx, key) == Direct(page, n, b, ctx, key)
    decreases n, 2
  {
    match n
    case Comment =>
    case Txt(text) => PiecesRead(page, text, a, b, ctx);
    case Elem(_, _, attrs, kids) =>
      PropsRead(page, attrs, a, b);
      AllDependOnFree(page, kids, a, b, ctx, 0);
    case For(_, list, _, hint, kids) =>
      AttrReads(page, list, a, b);
      var items := LoopItems(page, AttrValue(page, list, a), ctx, hint);
      LoopDependsOnFree(page, kids, LoopName(n), items, a, b, ctx);
    case If(_, value, hintVal, kids) =>
      AttrReads(page, value, a, b);
      AttrReads(page, hintVal.GetOr(""), a, b);
      AllDependOnFree(page, kids, a, b, ctx, 0);
  }

  lemma {:induction false} AllDependOnFree<V>(
      page: Page<V>, nodes: seq<Node>, a: Lookup<V>, b: Lookup<V>, ctx: Ctx, key: nat)
    requires Agree(a, b, FreeAll(nodes))
    ensures DirectAll(page, nodes, a, ctx, key) == DirectAll(page, nodes, b, ctx, key)
    decreases nodes, 0
  {
    if nodes != [] {
      DependsOnFree(page, nodes[0], a, b, ctx, key);
      AllDependOnFree(page, nodes[1..], a, b, ctx, if LeavesNothing(nodes[0]) then key else key + 1);
    }
  }

  lemma {:induction false} LoopDependsOnFree<V>(
      page: Page<V>, kids: seq<Node>, name: string, items: seq<V>, a: Lookup<V>, b: Lookup<V>, ctx: Ctx)
    requires Agree(a, b, FreeAll(kids) - {name, "$index"})
    ensures DirectLoop(page, kids, name, items, a, ctx) == DirectLoop(page, kids, name, items, b, ctx)
    decreases kids, 1
  {
    forall i | 0 <= i < |items|
      ensures DirectLoop(page, kids, name, items, a, ctx)[i] == DirectLoop(page, kids, name, items, b, ctx)[i]
    {
      var a', b' := Bind(Bind(a, name, items[i]), "$index", page.index(i)), Bind(Bind(b, name, items[i]), "$index", page.index(i));
      AllDependOnFree(page, kids, a', b', ctx, 0);
    }
  }

  // ---------------------------------------------------------------- compiled closures

  /**
   Object spread with one more key, as JavaScript reads it back, for the values that `plain` picks out:
   object literals, which is what the runtime renders with. Of other values it is not asked. The spread of
   a string has no `length` and that of null inherits a `toString`, so it would not be true of them.
   */
  ghost predicate Lawful<V(!new)>(page: Page<V>, plain: V -> bool) {
    forall vals: V, name: string, x: V | plain(vals) ::
      var sub := page.spread(vals, name, x);
      plain(sub) && Stands(page.w, sub, Bind(Names(page.w, vals), name, x))
  }

  /** Each name stands for what is read off the values. */
  ghost predicate Stands<V>(w: World<V>, vals: V, look: Lookup<V>) {
    forall name: string :: Names(w, vals)(name) == look(name)
  }

  /** The values of a loop body bind the item and its place, and nothing else. */
  lemma InnerStands<V(!new)>(
      page: Page<V>, plain: V -> bool, vals: V, look: Lookup<V>, name: string, item: V, i: nat)
    requires Lawful(page, plain) && plain(vals) && Stands(page.w, vals, look)
    ensures var sub := Inner(page, vals, name, item, i);
            plain(sub) && Stands(page.w, sub, Bind(Bind(look, name, item), "$index", page.index(i)))
  {
    var one := page.spread(vals, name, item);
    assert plain(one) && Stands(page.w, one, Bind(Names(page.w, vals), name, item));
    var two := page.spread(one, "$index", page.index(i));
    assert plain(two) && Stands(page.w, two, Bind(Names(page.w, one), "$index", page.index(i)));
    forall n: string
      ensures Names(page.w, two)(n) == Bind(Bind(look, name, item), "$index", page.index(i))(n)
    {
      assert Names(page.w, two)(n) == Bind(Names(page.w, one), "$index", page.index(i))(n);
      assert Names(page.w, one)(n) == Bind(Names(page.w, vals), name, item)(n);
      assert Names(page.w, vals)(n) == look(n);
    }
  }

  /** The two ways to write a hole come to the same. */
  lemma HolesAgree<V>(page: Page<V>, s: string, look: Lookup<V>, ctx: Ctx)
    ensures Pieces(s, Verbatim, AttrHole(page, look), 0) == Pieces(s, Verbatim, AttrFill(page, look), 0)
    ensures Pieces(s, LiteralOut, TextHole(page, look, ctx), 0) == Pieces(s, LiteralOut, HoleMeaning(page, look, ctx), 0)
  {
    PiecesByHoles(s, Verbatim, AttrHole(page, look), AttrFill(page, look), 0);
    PiecesByHoles(s, LiteralOut, TextHole(page, look, ctx), HoleMeaning(page, look, ctx), 0);
  }

  lemma AttrMeaning<V>(page: Page<V>, raw: string, vals: V, look: Lookup<V>)
    requires Stands(page.w, vals, look)
    ensures CompileAttr(page, raw)(vals) == AttrValue(page, raw, look)
  {
    var names := Names(page.w, vals);
    WholeIsBody(raw);
    AttrReads(page, raw, names, look);
    HolesAgree(page, raw, names, Ctx(false, false));
    if FirstPair(raw, '{', 0).Some? {
      MapIsPieces(raw, Verbatim, AttrHole(page, names), 0);
    } else {
      assert Pieces(raw, Verbatim, AttrHole(page, names), 0) == [raw];
      assert Concat([raw]) == raw;
    }
  }

  lemma TextMeaning<V>(page: Page<V>, text: string, vals: V, look: Lookup<V>, ctx: Ctx)
    requires Stands(page.w, vals, look)
    ensures MapParts(Split(text), LiteralOut, TextHole(page, Names(page.w, vals), ctx), 0) ==
            Pieces(text, LiteralOut, HoleMeaning(page, look, ctx), 0)
  {
    var names := Names(page.w, vals);
    PiecesRead(page, text, names, look, ctx);
    HolesAgree(page, text, names, ctx);
    MapIsPieces(text, LiteralOut, TextHole(page, names, ctx), 0);
  }

  /** Dropped are exactly comments and blank texts without a plain space. */
  lemma VanishesExactly(n: Node)
    ensures Vanishes(n) <==> LeavesNothing(n)
  {
    if n.Txt? {
      TrimBlank(n.text);
    }
  }

  lemma {:induction false} PropsMeaning<V>(page: Page<V>, attrs: seq<Attr>, vals: V, look: Lookup<V>)
    requires Stands(page.w, vals, look)
    ensures ApplyGetters(page, CompileProps(page, attrs), vals) == DirectProps(page, attrs, look)
    decreases |attrs|
  {
    if attrs != [] {
      AttrMeaning(page, attrs[0].raw, vals, look);
      PropsMeaning(page, attrs[1..], vals, look);
    }
  }

  /**
   Compiling a node once and running the closure on any object of values gives the direct meaning of
   the node, with every name standing for what is read off that object.
   */
  lemma {:induction false} CompiledMeaning<V(!new)>(
      page: Page<V>, plain: V -> bool, n: Node, vals: V, look: Lookup<V>, ctx: Ctx, key: nat)
    requires Lawful(page, plain) && plain(vals) && Stands(page.w, vals, look)
    ensures Compile(page, n).None? <==> Vanishes(n)
    ensures Compile(page, n).Some? ==> Compile(page, n).value(vals, ctx, key) == Direct(page, n, look, ctx, key)
    decreases n, 2, 0
  {
    match n
    case Comment =>
    case Txt(text) => TextMeaning(page, text, vals, look, ctx);
    case Elem(_, _, attrs, kids) =>
      PropsMeaning(page, attrs, vals, look);
      CompiledAll(page, plain, kids, vals, look, ctx, 0);
    case For(_, list, _, hint, kids) =>
      AttrMeaning(page, list, vals, look);
      var items := LoopItems(page, AttrValue(page, list, look), ctx, hint);
      CompiledLoop(page, plain, kids, LoopName(n), items, vals, look, ctx, 0);
    case If(_, value, hintVal, kids) =>
      AttrMeaning(page, value, vals, look);
      AttrMeaning(page, hintVal.GetOr(""), vals, look);
      CompiledAll(page, plain, kids, vals, look, ctx, 0);
  }

  lemma {:induction false} CompiledAll<V(!new)>(
      page: Page<V>, plain: V -> bool, nodes: seq<Node>, vals: V, look: Lookup<V>, ctx: Ctx, j: nat)
    requires Lawful(page, plain) && plain(vals) && Stands(page.w, vals, look)
    ensures ApplyAll(CompileAll(page, nodes), vals, ctx, j) == DirectAll(page, nodes, look, ctx, j)
    decreases nodes, 0, 0
  {
    if nodes != [] {
      CompiledMeaning(page, plain, nodes[0], vals, look, ctx, j);
      VanishesExactly(nodes[0]);
      var b, rest := Compile(page, nodes[0]), CompileAll(page, nodes[1..]);
      if b.Some? {
        CompiledAll(page, plain, nodes[1..], vals, look, ctx, j + 1);
        assert CompileAll(page, nodes) == [b.value] + rest;
        assert ([b.value] + rest)[1..] == rest;
      } else {
        CompiledAll(page, plain, nodes[1..], vals, look, ctx, j);
        assert CompileAll(page, nodes) == rest;
      }
    }
  }

  lemma {:induction false} CompiledLoop<V(!new)>(
      page: Page<V>, plain: V -> bool, kids: seq<Node>, name: string, items: seq<V>, vals: V, look: Lookup<V>, ctx: Ctx, i: nat)
    requires Lawful(page, plain) && plain(vals) && Stands(page.w, vals, look) && i <= |items|
    ensures ApplyLoop(page, CompileAll(page, kids), name, items[i..], vals, ctx, i) ==
            DirectLoop(page, kids, name, items, look, ctx)[i..]
    decreases kids, 1, |items| - i
  {
    if i < |items| {
      var inner := Bind(Bind(look, name, items[i]), "$index", page.index(i));
      InnerStands(page, plain, vals, look, name, items[i], i);
      CompiledAll(page, plain, kids, Inner(page, vals, name, items[i], i), inner, ctx, 0);
      CompiledLoop(page, plain, kids, name, items, vals, look, ctx, i + 1);
      assert items[i..][1..] == items[i + 1..];
    }
  }

  /** So a rendered template depends on its free names only, whatever else the two objects hold. */
  lemma CompiledDependsOnFree<V(!new)>(
      page: Page<V>, plain: V -> bool, n: Node, a: V, b: V, ctx: Ctx, key: nat)
    requires Lawful(page, plain) && plain(a) && plain(b) && Compile(page, n).Some?
    requires Agree(Names(page.w, a), Names(page.w, b), Free(n))
    ensures Compile(page, n).value(a, ctx, key) == Compile(page, n).value(b, ctx, key)
  {
    CompiledMeaning(page, plain, n, a, Names(page.w, a), ctx, key);
    CompiledMeaning(page, plain, n, b, Names(page.w, b), ctx, key);
    DependsOnFree(page, n, Names(page.w, a), Names(page.w, b), ctx, key);
  }

  /** And a value of the loop's name from outside never shows in the loop, except through the list itself. */
  lemma LoopNameIsLocal<V(!new)>(page: Page<V>, plain: V -> bool, n: Node, vals: V, x: V, ctx: Ctx, key: nat)
    requires Lawful(page, plain) && plain(vals) && n.For? && LoopName(n) !in NamesOfAttr(n.list)
    ensures Compile(page, n).value(page.spread(vals, LoopName(n), x), ctx, key) == Compile(page, n).value(vals, ctx, key)
  {
    var sub := page.spread(vals, LoopName(n), x);
    assert plain(sub) && Stands(page.w, sub, Bind(Names(page.w, vals), LoopName(n), x));
    CompiledDependsOnFree(page, plain, n, sub, vals, ctx, key);
  }

  // ---------------------------------------------------------------- where rendered elements come from

  datatype Tag = Tag(id: nat, tag: string)

  function Emitted<V>(o: Out<V>): set<Tag>
    decreases o, 1
  {
    match o
    case Element(_, id, tag, _, kids) => {Tag(id, tag)} + EmittedAll(kids)
    case Fragment(_, kids) => EmittedAll(kids)
    case _ => {}
  }

  function EmittedAll<V>(os: seq<Out<V>>): set<Tag>
    decreases os, 0
  {
    if os == [] then {} else Emitted(os[0]) + EmittedAll(os[1..])
  }

  function Source(n: Node): set<Tag>
    decreases n, 1
  {
    match n
    case Elem(id, tag, _, kids) => {Tag(id, tag)} + SourceAll(kids)
    case For(_, _, _, _, kids) => SourceAll(kids)
    case If(_, _, _, kids) => SourceAll(kids)
    case _ => {}
  }

  function SourceAll(nodes: seq<Node>): set<Tag>
    decreases nodes, 0
  {
    if nodes == [] then {} else Source(nodes[0]) + SourceAll(nodes[1..])
  }

  lemma {:induction false} EmittedConcat<V>(a: seq<Out<V>>, b: seq<Out<V>>)
    ensures EmittedAll(a + b) == EmittedAll(a) + EmittedAll(b)
    decreases |a|
  {
    if a == [] {
      assert a + b == b;
    } else {
      assert (a + b)[1..] == a[1..] + b;
      EmittedConcat(a[1..], b);
    }
  }

  lemma {:induction false} EmitNothing<V>(os: seq<Out<V>>)
    requires forall i | 0 <= i < |os| :: Emitted(os[i]) == {}
    ensures EmittedAll(os) == {}
  {
    if os != [] { EmitNothing(os[1..]); }
  }

  lemma TextEmitsNothing<V>(page: Page<V>, parts: seq<string>, look: Lookup<V>, ctx: Ctx)
    ensures EmittedAll(MapParts(parts, LiteralOut, TextHole(page, look, ctx), 0)) == {}
  {
    var os := MapParts(parts, LiteralOut, TextHole(page, look, ctx), 0);
    forall k | 0 <= k < |os| ensures Emitted(os[k]) == {} {
      assert os[k] == if k % 2 == 0 then LiteralOut(parts[k]) else TextHole(page, look, ctx)(parts[k], k);
      HoleEmitsNothing(page, look, ctx, parts[k], k);
    }
    EmitNothing(os);
  }

  lemma HoleEmitsNothing<V>(page: Page<V>, look: Lookup<V>, ctx: Ctx, src: string, key: nat)
    ensures Emitted(TextHole(page, look, ctx)(src, key)) == {}
  {
  }

  /** Every rendered element carries the number and the tag of an element of the template. */
  lemma {:induction false} EmittedFromSource<V>(page: Page<V>, n: Node, vals: V, ctx: Ctx, key: nat)
    ensures Compile(page, n).Some? ==> Emitted(Compile(page, n).value(vals, ctx, key)) <= Source(n)
    decreases n, 2, 0
  {
    match n
    case Comment =>
    case Txt(text) => TextEmitsNothing(page, Split(text), Names(page.w, vals), ctx);
    case Elem(_, _, _, kids) => AllFromSource(page, kids, vals, ctx, 0);
    case For(_, list, _, hint, kids) =>
      LoopFromSource(page, kids, LoopName(n), LoopItems(page, CompileAttr(page, list)(vals), ctx, hint), vals, ctx, 0);
    case If(_, _, _, kids) => AllFromSource(page, kids, vals, ctx, 0);
  }

  lemma {:induction false} AllFromSource<V>(page: Page<V>, nodes: seq<Node>, vals: V, ctx: Ctx, key: nat)
    ensures EmittedAll(ApplyAll(CompileAll(page, nodes), vals, ctx, key)) <= SourceAll(nodes)
    decreases nodes, 0, 0
  {
    if nodes != [] {
      var b, rest := Compile(page, nodes[0]), CompileAll(page, nodes[1..]);
      EmittedFromSource(page, nodes[0], vals, ctx, key);
      AllFromSource(page, nodes[1..], vals, ctx, if b.None? then key else key + 1);
      if b.Some? {
        var head := [b.value(vals, ctx, key)];
        assert CompileAll(page, nodes) == [b.value] + rest && ([b.value] + rest)[1..] == rest;
        EmittedConcat(head, ApplyAll(rest, vals, ctx, key + 1));
        assert head[1..] == [];
      } else {
        assert CompileAll(page, nodes) == rest;
      }
    }
  }

  lemma {:induction false} LoopFromSource<V>(
      page: Page<V>, kids: seq<Node>, name: string, items: seq<V>, vals: V, ctx: Ctx, i: nat)
    ensures EmittedAll(ApplyLoop(page, CompileAll(page, kids), name, items, vals, ctx, i)) <= SourceAll(kids)
    decreases kids, 1, |items|
  {
    if items != [] {
      var bs := CompileAll(page, kids);
      var head := [Fragment(i, ApplyAll(bs, Inner(page, vals, name, items[0], i), ctx, 0))];
      AllFromSource(page, kids, Inner(page, vals, name, items[0], i), ctx, 0);
      LoopFromSource(page, kids, name, items[1..], vals, ctx, i + 1);
      EmittedConcat(head, ApplyLoop(page, bs, name, items[1..], vals, ctx, i + 1));
      assert head[1..] == [];
    }
  }

  // ---------------------------------------------------------------- numbering

  /** Numbers the elements of a forest in document order, from `n` on. */
  function Stamp(nodes: seq<Node>, n: nat): (seq<Node>, nat)
    decreases nodes, 0
  {
    if nodes == [] then ([], n)
    else
      var (first, m) := StampNode(nodes[0], n);
      var (rest, k) := Stamp(nodes[1..], m);
      ([first] + rest, k)
  }

  function StampNode(node: Node, n: nat): (Node, nat)
    decreases node, 1
  {
    match node
    case Comment => (node, n)
    case Txt(_) => (node, n)
    case Elem(_, tag, attrs, kids) => var (ks, m) := Stamp(kids, n + 1); (Elem(n, tag, attrs, ks), m)
    case For(_, list, as_, hint, kids) => var (ks, m) := Stamp(kids, n + 1); (For(n, list, as_, hint, ks), m)
    case If(_, value, hintVal, kids) => var (ks, m) := Stamp(kids, n + 1); (If(n, value, hintVal, ks), m)
  }

  /** The numbers of all elements in document order. */
  function Numbers(nodes: seq<Node>): seq<nat>
    decreases nodes, 0
  {
    if nodes == [] then [] else NumbersOf(nodes[0]) + Numbers(nodes[1..])
  }

  function NumbersOf(node: Node): seq<nat>
    decreases node, 1
  {
    match node
    case Comment => []
    case Txt(_) => []
    case Elem(id, _, _, kids) => [id] + Numbers(kids)
    case For(id, _, _, _, kids) => [id] + Numbers(kids)
    case If(id, _, _, kids) => [id] + Numbers(kids)
  }

  function Upto(n: nat, m: nat): seq<nat>
    requires n <= m
  {
    seq(m - n, i requires 0 <= i < m - n => n + i)
  }

  lemma UptoConcat(a: nat, b: nat, c: nat)
    requires a <= b <= c
    ensures Upto(a, b) + Upto(b, c) == Upto(a, c)
  {
  }

  /** Stamping gives the elements, in document order, exactly the numbers from `n` to `m - 1`. */
  lemma {:induction false} StampIsPreorder(nodes: seq<Node>, n: nat)
    ensures var (t, m) := Stamp(nodes, n);
            n <= m && Numbers(t) == Upto(n, m) && |Numbers(nodes)| == m - n && |t| == |nodes|
    decreases nodes, 0
  {
    if nodes != [] {
      var (first, m) := StampNode(nodes[0], n);
      var (rest, k) := Stamp(nodes[1..], m);
      StampNodeIsPreorder(nodes[0], n);
      StampIsPreorder(nodes[1..], m);
      UptoConcat(n, m, k);
      assert ([first] + rest)[1..] == rest;
    } else {
      assert Upto(n, n) == [];
    }
  }

  lemma {:induction false} StampNodeIsPreorder(node: Node, n: nat)
    ensures var (t, m) := StampNode(node, n); n <= m && NumbersOf(t) == Upto(n, m) && |NumbersOf(node)| == m - n
    decreases node, 1
  {
    assert Upto(n, n) == [] && Upto(n, n + 1) == [n];
    match node
    case Comment =>
    case Txt(_) =>
    case Elem(_, _, _, kids) => StampIsPreorder(kids, n + 1); UptoConcat(n, n + 1, Stamp(kids, n + 1).1);
    case For(_, _, _, _, kids) => StampIsPreorder(kids, n + 1); UptoConcat(n, n + 1, Stamp(kids, n + 1).1);
    case If(_, _, _, kids) => StampIsPreorder(kids, n + 1); UptoConcat(n, n + 1, Stamp(kids, n + 1).1);
  }

  lemma {:induction false} SourceNumbers(nodes: seq<Node>)
    ensures forall t | t in SourceAll(nodes) :: t.id in Numbers(nodes)
    decreases nodes, 0
  {
    if nodes != [] {
      SourceNumbersOf(nodes[0]);
      SourceNumbers(nodes[1..]);
    }
  }

  lemma {:induction false} SourceNumbersOf(node: Node)
    ensures forall t | t in Source(node) :: t.id in NumbersOf(node)
    decreases node, 1
  {
    match node
    case Comment =>
    case Txt(_) =>
    case Elem(_, _, _, kids) => SourceNumbers(kids);
    case For(_, _, _, _, kids) => SourceNumbers(kids);
    case If(_, _, _, kids) => SourceNumbers(kids);
  }

  predicate Distinct(xs: seq<nat>) {
    forall i, j | 0 <= i < j < |xs| :: xs[i] != xs[j]
  }

  lemma DistinctParts(a: seq<nat>, b: seq<nat>)
    requires Distinct(a + b)
    ensures Distinct(a) && Distinct(b) && forall x | x in a :: x !in b
  {
    var s := a + b;
    forall i, j | 0 <= i < j < |a| ensures a[i] != a[j] { assert s[i] != s[j]; }
    forall i, j | 0 <= i < j < |b| ensures b[i] != b[j] { assert s[|a| + i] != s[|a| + j]; }
    forall i, j | 0 <= i < |a| && 0 <= j < |b| ensures a[i] != b[j] { assert s[i] != s[|a| + j]; }
  }

  /** With distinct numbers a number belongs to one tag only. */
  lemma {:induction false} NumberFixesTag(nodes: seq<Node>, t: Tag, u: Tag)
    requires Distinct(Numbers(nodes)) && t in SourceAll(nodes) && u in SourceAll(nodes) && t.id == u.id
    ensures t == u
    decreases nodes, 0
  {
    DistinctParts(NumbersOf(nodes[0]), Numbers(nodes[1..]));
    SourceNumbersOf(nodes[0]);
    SourceNumbers(nodes[1..]);
    if t in Source(nodes[0]) {
      NumberFixesTagOf(nodes[0], t, u);
    } else {
      NumberFixesTag(nodes[1..], t, u);
    }
  }

  lemma {:induction false} NumberFixesTagOf(node: Node, t: Tag, u: Tag)
    requires Distinct(NumbersOf(node)) && t in Source(node) && u in Source(node) && t.id == u.id
    ensures t == u
    decreases node, 1
  {
    DistinctParts([node.id], Numbers(node.kids));
    SourceNumbers(node.kids);
    if t in SourceAll(node.kids) && u in SourceAll(node.kids) { NumberFixesTag(node.kids, t, u); }
  }

  /**
   From end to end: after stamping, rendering a compiled template with any values emits only elements
   whose number is that of a template element, and that number names one element only.
   */
  lemma RenderedNumbers<V>(page: Page<V>, nodes: seq<Node>, vals: V, ctx: Ctx, t: Tag)
    requires t in EmittedAll(ApplyAll(CompileAll(page, Stamp(nodes, 0).0), vals, ctx, 0))
    ensures t in SourceAll(Stamp(nodes, 0).0) && t.id < |Numbers(nodes)|
    ensures forall u | u in SourceAll(Stamp(nodes, 0).0) && u.id == t.id :: u == t
  {
    var (stamped, m) := Stamp(nodes, 0);
    StampIsPreorder(nodes, 0);
    AllFromSource(page, stamped, vals, ctx, 0);
    SourceNumbers(stamped);
    forall u | u in SourceAll(stamped) && u.id == t.id ensures u == t {
      NumberFixesTag(stamped, t, u);
    }
  }
}
