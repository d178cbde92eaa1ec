/**
 Templates: elements, texts with holes, loops and conditionals. Compilation turns a tree into
 closures once; rendering applies them to values many times. Beside it stands the direct meaning of
 a tree, in which names are looked up and loops bind them.
 */
module Template {
  import opened Prelude
  import opened Text
  import opened Evaluator
  import opened Holes

  /** How a text hole shows its value. */
  datatype Kind = Absent | Silent | Rich | Plain

  /** The JavaScript operations that rendering needs beyond those of expressions. */
  datatype Page<!V> = Page(
    w: World<V>,
    items: V -> Option<seq<V>>,
    spread: (V, string, V) -> V,
    index: nat -> V,
    str: V -> string,
    kind: V -> Kind,
    prop: (string, V) -> V)

  datatype Attr = Attr(name: string, raw: string)

  /** A parsed template. Every element has a number, loops and conditionals included. */
  datatype Node =
    | Comment
    | Txt(text: string)
    | Elem(id: nat, tag: string, attrs: seq<Attr>, kids: seq<Node>)
    | For(id: nat, list: string, as_: string, hint: nat, kids: seq<Node>)
    | If(id: nat, value: string, hintVal: Option<string>, kids: seq<Node>)

  /** What the builders read off the component while it renders. */
  datatype Ctx = Ctx(streaming: bool, editor: bool)

  datatype Prop<V> = Prop(name: string, value: V)

  /** Rendered output; keys are positions among the siblings that render at all. */
  datatype Out<V> =
    | Nothing
    | Literal(s: string)
    | Shown(key: nat, v: V)
    | Spliced(key: nat, v: V)
    | Unresolved(key: nat, src: string)
    | Pending(key: nat, src: string)
    | Fragment(key: nat, kids: seq<Out<V>>)
    | Element(key: nat, id: nat, tag: string, props: seq<Prop<V>>, kids: seq<Out<V>>)

  type Getter<!V> = V -> V
  type Builder<!V> = (V, Ctx, nat) -> Out<V>

  function LoopName(n: Node): string
    requires n.For?
  {
    if n.as_ == "" then "item" else n.as_
  }

  // ---------------------------------------------------------------- single holes

  /** The inside of an attribute that is one hole from end to end. */
  function WholeHole(raw: string): Option<string> {
    var t := Trim(raw);
    if |t| >= 5 && t[..2] == "{{" && t[|t| - 2..] == "}}" then Some(t[2..|t| - 2]) else None
  }

  function Verbatim(s: string): string {
    s
  }

  /** A hole inside an attribute text. */
  function AttrHole<V>(page: Page<V>, look: Lookup<V>): (string, nat) -> string {
    (src: string, key: nat) =>
      var v := Resolve(page.w, look, src);
      if page.w.nullish(v) then "" else page.str(v)
  }

  function LiteralOut<V>(s: string): Out<V> {
    Literal(s)
  }

  /** A hole inside a text. */
  function TextHole<V>(page: Page<V>, look: Lookup<V>, ctx: Ctx): (string, nat) -> Out<V> {
    (src: string, key: nat) =>
      var v := Resolve(page.w, look, src);
      match page.kind(v)
      case Absent => if ctx.streaming then Pending(key, Trim(src)) else if ctx.editor then Unresolved(key, Trim(src)) else Nothing
      case Rich => Spliced(key, v)
      case Silent => Nothing
      case Plain => Shown(key, v)
  }

  /** `join("")` */
  function Concat(ss: seq<string>): string {
    if ss == [] then "" else ss[0] + Concat(ss[1..])
  }

  /** A text that compiles to nothing: blank, and without a plain space. */
  predicate Vanishes(n: Node) {
    n.Comment? || (n.Txt? && FirstPair(n.text, '{', 0).None? && Trim(n.text) == "" && ' ' !in n.text)
  }

  // ---------------------------------------------------------------- compilation to closures

  function CompileAttr<V>(page: Page<V>, raw: string): Getter<V> {
    var whole := WholeHole(raw);
    if whole.Some? then (vals: V) => Resolve(page.w, Names(page.w, vals), whole.value)
    else if FirstPair(raw, '{', 0).Some? then
      var parts := Split(raw);
      (vals: V) => page.w.text(Concat(MapParts(parts, Verbatim, AttrHole(page, Names(page.w, vals)), 0)))
    else (vals: V) => page.w.text(raw)
  }

  /** The items to loop over; while streaming, a list that is not there yet is stood in for. */
  function LoopItems<V>(page: Page<V>, list: V, ctx: Ctx, hint: nat): seq<V> {
    if page.items(list).Some? then page.items(list).value
    else if ctx.streaming then seq(hint, _ => page.w.undef)
    else []
  }

  /** The values inside a loop body. */
  function Inner<V>(page: Page<V>, vals: V, name: string, item: V, i: nat): V {
    page.spread(page.spread(vals, name, item), "$index", page.index(i))
  }

  function Chosen<V>(page: Page<V>, v: V, hint: V, hasHint: bool, ctx: Ctx): bool {
    page.w.truthy(if page.kind(v) == Absent && hasHint && ctx.streaming then hint else v)
  }

  function Compile<V>(page: Page<V>, n: Node): Option<Builder<V>>
    decreases n, 1
  {
    match n
    case Comment => None
    case Txt(text) =>
      if Vanishes(n) then None
      else if FirstPair(text, '{', 0).None? then Some((vals: V, ctx: Ctx, key: nat) => Literal(text))
      else
        var parts := Split(text);
        Some((vals: V, ctx: Ctx, key: nat) =>
               Fragment(key, MapParts(parts, LiteralOut, TextHole(page, Names(page.w, vals), ctx), 0)))
    case Elem(id, tag, attrs, kids) =>
      var getters := CompileProps(page, attrs);
      var builders := CompileAll(page, kids);
      Some((vals: V, ctx: Ctx, key: nat) =>
             Element(key, id, tag, ApplyGetters(page, getters, vals), ApplyAll(builders, vals, ctx, 0)))
    case For(_, list, _, hint, kids) =>
      var listGet := CompileAttr(page, list);
      var name := LoopName(n);
      var builders := CompileAll(page, kids);
      Some((vals: V, ctx: Ctx, key: nat) =>
             Fragment(key, ApplyLoop(page, builders, name, LoopItems(page, listGet(vals), ctx, hint), vals, ctx, 0)))
    case If(_, value, hintVal, kids) =>
      var valGet := CompileAttr(page, value);
      var hintGet := CompileAttr(page, hintVal.GetOr(""));
      var builders := CompileAll(page, kids);
      Some((vals: V, ctx: Ctx, key: nat) =>
             if Chosen(page, valGet(vals), hintGet(vals), hintVal.Some?, ctx)
             then Fragment(key, ApplyAll(builders, vals, ctx, 0)) else Nothing)
  }

  /** Children that compile to nothing are dropped here, once. */
  function CompileAll<V>(page: Page<V>, nodes: seq<Node>): seq<Builder<V>>
    decreases nodes, 0
  {
    if nodes == [] then []
    else
      var b := Compile(page, nodes[0]);
      (if b.Some? then [b.value] else []) + CompileAll(page, nodes[1..])
  }

  datatype PropGetter<!V> = PropGetter(name: string, get: Getter<V>)

  function CompileProps<V>(page: Page<V>, attrs: seq<Attr>): seq<PropGetter<V>> {
    if attrs == [] then []
    else [PropGetter(attrs[0].name, CompileAttr(page, attrs[0].raw))] + CompileProps(page, attrs[1..])
  }

  function ApplyGetters<V>(page: Page<V>, getters: seq<PropGetter<V>>, vals: V): seq<Prop<V>>
    decreases |getters|
  {
    if getters == [] then []
    else
      var g := getters[0];
      [Prop(g.name, page.prop(g.name, g.get(vals)))] + ApplyGetters(page, getters[1..], vals)
  }

  function ApplyAll<V>(bs: seq<Builder<V>>, vals: V, ctx: Ctx, j: nat): seq<Out<V>>
    decreases |bs|
  {
    if bs == [] then [] else [bs[0](vals, ctx, j)] + ApplyAll(bs[1..], vals, ctx, j + 1)
  }

  function ApplyLoop<V>(page: Page<V>, bs: seq<Builder<V>>, name: string, items: seq<V>, vals: V, ctx: Ctx, i: nat): seq<Out<V>>
    decreases |items|
  {
    if items == [] then []
    else [Fragment(i, ApplyAll(bs, Inner(page, vals, name, items[0], i), ctx, 0))]
         + ApplyLoop(page, bs, name, items[1..], vals, ctx, i + 1)
  }

  // ---------------------------------------------------------------- direct meaning of a tree

  /** A loop name stands for one value, other names stand for what they stood for. */
  function Bind<V>(look: Lookup<V>, name: string, x: V): Lookup<V> {
    (n: string) => if n == name then x else look(n)
  }

  /** The text is one hole with this inside, and at most blanks around it. */
  ghost predicate IsWholeHole(raw: string, body: string) {
    body != "" && exists pre, post :: AllBlank(pre) && AllBlank(post) && raw == pre + ("{{" + body + "}}") + post
  }

  ghost function WholeBody(raw: string): Option<string> {
    if body :| IsWholeHole(raw, body) then Some(body) else None
  }

  /** What a value adds to a text. */
  function AttrFill<V>(page: Page<V>, look: Lookup<V>): (string, nat) -> string {
    (src: string, key: nat) =>
      if !page.w.nullish(Resolve(page.w, look, src)) then page.str(Resolve(page.w, look, src)) else ""
  }

  ghost function AttrValue<V>(page: Page<V>, raw: string, look: Lookup<V>): V {
    match WholeBody(raw)
    case Some(body) => Resolve(page.w, look, body)
    case None => page.w.text(Concat(Pieces(raw, Verbatim, AttrFill(page, look), 0)))
  }

  /** What a hole in a text shows: a value, a splice, a notice about what is missing, or nothing. */
  function HoleMeaning<V>(page: Page<V>, look: Lookup<V>, ctx: Ctx): (string, nat) -> Out<V> {
    (src: string, key: nat) =>
      var kind, v := page.kind(Resolve(page.w, look, src)), Resolve(page.w, look, src);
      if kind == Plain then Shown(key, v)
      else if kind == Rich then Spliced(key, v)
      else if kind == Absent && ctx.streaming then Pending(key, Trim(src))
      else if kind == Absent && ctx.editor then Unresolved(key, Trim(src))
      else Nothing
  }

  /** Comments, and blank texts without a plain space: line breaks and indentation by tabs. */
  ghost predicate LeavesNothing(n: Node) {
    match n
    case Comment => true
    case Txt(text) => forall i | 0 <= i < |text| :: IsBlank(text[i]) && text[i] != ' '
    case _ => false
  }

  /** What a tree renders to when names stand for the values that `look` gives them. */
  ghost function Direct<V>(page: Page<V>, n: Node, look: Lookup<V>, ctx: Ctx, key: nat): Out<V>
    decreases n, 2
  {
    match n
    case Comment => Nothing
    case Txt(text) =>
      if FirstPair(text, '{', 0).None? then Literal(text)
      else Fragment(key, Pieces(text, LiteralOut, HoleMeaning(page, look, ctx), 0))
    case Elem(id, tag, attrs, kids) =>
      Element(key, id, tag, DirectProps(page, attrs, look), DirectAll(page, kids, look, ctx, 0))
    case For(_, list, as_, hint, kids) =>
      var items := match page.items(AttrValue(page, list, look))
        case Some(items) => items
        case None => if ctx.streaming then seq(hint, _ => page.w.undef) else [];
      Fragment(key, DirectLoop(page, kids, if as_ != "" then as_ else "item", items, look, ctx))
    case If(_, value, hintVal, kids) =>
      var v := AttrValue(page, value, look);
      var shown := match hintVal
        case Some(raw) => if ctx.streaming && page.kind(v) == Absent then AttrValue(page, raw, look) else v
        case None => v;
      if page.w.truthy(shown) then Fragment(key, DirectAll(page, kids, look, ctx, 0)) else Nothing
  }

  /** Children that vanish take no key. */
  ghost function DirectAll<V>(page: Page<V>, nodes: seq<Node>, look: Lookup<V>, ctx: Ctx, key: nat): seq<Out<V>>
    decreases nodes, 0
  {
    if nodes == [] then []
    else if LeavesNothing(nodes[0]) then DirectAll(page, nodes[1..], look, ctx, key)
    else [Direct(page, nodes[0], look, ctx, key)] + DirectAll(page, nodes[1..], look, ctx, key + 1)
  }

  /** One copy of the body for each item, with the item and its place bound. */
  ghost function DirectLoop<V>(page: Page<V>, kids: seq<Node>, name: string, items: seq<V>, look: Lookup<V>, ctx: Ctx): seq<Out<V>>
    decreases kids, 1
  {
    seq(|items|, i requires 0 <= i < |items| =>
      Fragment(i, DirectAll(page, kids, Bind(Bind(look, name, items[i]), "$index", page.index(i)), ctx, 0)))
  }

  ghost function DirectProps<V>(page: Page<V>, attrs: seq<Attr>, look: Lookup<V>): seq<Prop<V>> {
    if attrs == [] then []
    else [Prop(attrs[0].name, page.prop(attrs[0].name, AttrValue(page, attrs[0].raw, look)))]
         + DirectProps(page, attrs[1..], look)
  }
}
