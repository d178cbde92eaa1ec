/**
 A small world of JavaScript values, to show for which of them object spread reads back as
 templates rely on: objects, but not strings and not null.
 */
module PlainObjects {
  import opened Prelude
  import opened Evaluator
  import opened Template
  import opened TemplateMeaning

  /** `Inherited` is what every object finds on its prototype under `toString`. */
  datatype Js =
    | Undefined
    | Null
    | Truth(b: bool)
    | Numeric(literal: string)
    | Count(n: nat)
    | Str(s: string)
    | Inherited
    | Object(own: map<string, Js>)
    | List(items: seq<Js>)

  function Own(v: Js): map<string, Js> {
    if v.Object? then v.own else map[]
  }

  function Prop(v: Js, key: Js): Js {
    if !key.Str? then Undefined
    else if key.s in Own(v) then Own(v)[key.s]
    else if v.Str? && key.s == "length" then Count(|v.s|)
    else if key.s == "toString" then Inherited
    else Undefined
  }

  const WORLD: World<Js> := World(
    Undefined, Null, b => Truth(b), t => Numeric(t), s => Str(s),
    (v: Js) => !(v.Undefined? || v.Null? || v == Truth(false) || v == Str("")),
    (v: Js) => v.Undefined? || v.Null?,
    (a: Js, b: Js) => a == b, (a: Js, b: Js) => a == b,
    Prop)

  const PAGE: Page<Js> := Page(
    WORLD,
    (v: Js) => if v.List? then Some(v.items) else None,
    (v: Js, name: string, x: Js) => Object(Own(v)[name := x]),
    (n: nat) => Count(n),
    (v: Js) => if v.Str? then v.s else "",
    (v: Js) => if v.Undefined? then Absent else if v.Null? || v.Truth? then Silent else if v.List? then Rich else Plain,
    (name: string, v: Js) => v)

  lemma ReadOff(v: Js, n: string)
    ensures Names(WORLD, v)(n) == if v.Undefined? || v.Null? then Undefined else Prop(v, Str(n))
  {
  }

  /** Objects read back what was spread into them, so the results on templates apply to them. */
  lemma ObjectsAreLawful()
    ensures Lawful(PAGE, (v: Js) => v.Object?)
  {
    forall vals: Js, name: string, x: Js | vals.Object?
      ensures Stands(WORLD, PAGE.spread(vals, name, x), Bind(Names(WORLD, vals), name, x))
    {
      var sub := PAGE.spread(vals, name, x);
      assert sub == Object(Own(vals)[name := x]);
      forall n: string ensures Names(WORLD, sub)(n) == Bind(Names(WORLD, vals), name, x)(n) {
        ReadOff(sub, n);
        ReadOff(vals, n);
      }
    }
  }

  /** Strings and null do not: spread takes a string's length away and gives null a prototype. */
  lemma OthersAreNot(plain: Js -> bool, v: Js)
    requires plain(v) && (v.Str? || v.Null?)
    ensures !Lawful(PAGE, plain)
  {
    var n := if v.Null? then "toString" else "length";
    var sub := PAGE.spread(v, "item", Undefined);
    assert sub == Object(Own(v)["item" := Undefined]);
    ReadOff(sub, n);
    ReadOff(v, n);
    assert Names(WORLD, sub)(n) != Bind(Names(WORLD, v), "item", Undefined)(n);
  }
}
