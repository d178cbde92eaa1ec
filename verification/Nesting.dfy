/**
 Components inside components. A template emits references to other components, depending on its
 props; the chain of names around a component cuts rendering where a name comes back.
 */
module Nesting {

  datatype Ref<P> = Ref(name: string, props: P)

  /** The components that have a template, and what each template emits for given props. */
  datatype Site<!P> = Site(names: set<string>, emits: (string, P) -> seq<Ref<P>>)

  /** `Cut` belongs to unchecked rendering only: the budget ran out there. */
  datatype Tree =
    | Node(name: string, kids: seq<Tree>)
    | Missing(name: string)
    | Circular(name: string, cycle: seq<string>)
    | Cut(name: string)

  function Names(chain: seq<string>): set<string> {
    set i | 0 <= i < |chain| :: chain[i]
  }

  function IndexOf(chain: seq<string>, name: string): (i: nat)
    requires name in chain
    ensures i < |chain| && chain[i] == name && name !in chain[..i]
  {
    if chain[0] == name then 0 else 1 + IndexOf(chain[1..], name)
  }

  /** Rendering under a chain. It ends for every site, however cyclic, and all props. */
  function Render<P>(site: Site<P>, chain: seq<string>, name: string, props: P): Tree
    decreases site.names - Names(chain), 1, 0
  {
    if name in chain then Circular(name, chain[IndexOf(chain, name)..] + [name])
    else if name !in site.names then Missing(name)
    else
      ChainGrows(site.names, chain, name);
      Node(name, RenderAll(site, chain + [name], site.emits(name, props)))
  }

  function RenderAll<P>(site: Site<P>, chain: seq<string>, refs: seq<Ref<P>>): seq<Tree>
    decreases site.names - Names(chain), 2, |refs|
  {
    if refs == [] then []
    else [Render(site, chain, refs[0].name, refs[0].props)] + RenderAll(site, chain, refs[1..])
  }

  lemma ChainGrows(names: set<string>, chain: seq<string>, name: string)
    requires name in names && name !in chain
    ensures Names(chain + [name]) == Names(chain) + {name}
    ensures names - Names(chain + [name]) < names - Names(chain)
  {
    var longer := chain + [name];
    assert longer[|chain|] == name;
    forall x | x in Names(chain) ensures x in Names(longer) {
      var i :| 0 <= i < |chain| && chain[i] == x;
      assert longer[i] == x;
    }
    assert name in names - Names(chain);
  }

  /** The same without the check, with a budget for the depth. */
  function Unfold<P>(site: Site<P>, fuel: nat, name: string, props: P): Tree
    decreases fuel, 0
  {
    if name !in site.names then Missing(name)
    else if fuel == 0 then Cut(name)
    else Node(name, UnfoldAll(site, fuel - 1, site.emits(name, props)))
  }

  function UnfoldAll<P>(site: Site<P>, fuel: nat, refs: seq<Ref<P>>): seq<Tree>
    decreases fuel, 1, |refs|
  {
    if refs == [] then []
    else [Unfold(site, fuel, refs[0].name, refs[0].props)] + UnfoldAll(site, fuel, refs[1..])
  }

  // ---------------------------------------------------------------- reported cycles

  /** For some props the template of `a` emits `b`. */
  ghost predicate Imports<P(!new)>(site: Site<P>, a: string, b: string) {
    a in site.names && exists p: P, i: nat :: i < |site.emits(a, p)| && site.emits(a, p)[i].name == b
  }

  /** The chain is a path of imports without repetition. */
  ghost predicate SimplePath<P(!new)>(site: Site<P>, chain: seq<string>) {
    && (forall i, j | 0 <= i < j < |chain| :: chain[i] != chain[j])
    && forall i | 0 <= i < |chain| - 1 :: Imports(site, chain[i], chain[i + 1])
  }

  /** A closed walk of imports that visits each of its components once. */
  ghost predicate SimpleCycle<P(!new)>(site: Site<P>, cycle: seq<string>) {
    && |cycle| >= 2 && cycle[0] == cycle[|cycle| - 1]
    && SimplePath(site, cycle[..|cycle| - 1])
    && Imports(site, cycle[|cycle| - 2], cycle[|cycle| - 1])
  }

  ghost predicate Genuine<P(!new)>(site: Site<P>, t: Tree) {
    match t
    case Circular(name, cycle) => SimpleCycle(site, cycle) && cycle[0] == name
    case Node(_, kids) => forall i | 0 <= i < |kids| :: Genuine(site, kids[i])
    case Missing(_) => true
    case Cut(_) => false
  }

  /** What may stand under a chain: a simple path of imports that leads to the component. */
  ghost predicate Leads<P(!new)>(site: Site<P>, chain: seq<string>, name: string) {
    SimplePath(site, chain) && (chain != [] ==> Imports(site, chain[|chain| - 1], name))
  }

  lemma LeadsFurther<P(!new)>(site: Site<P>, chain: seq<string>, name: string, props: P, k: nat)
    requires Leads(site, chain, name) && name !in chain && name in site.names
    requires k < |site.emits(name, props)|
    ensures Leads(site, chain + [name], site.emits(name, props)[k].name)
  {
    var longer := chain + [name];
    forall i | 0 <= i < |longer| - 1 ensures Imports(site, longer[i], longer[i + 1]) {
      if i < |chain| - 1 { assert Imports(site, chain[i], chain[i + 1]); }
    }
  }

  /** Every circular import that is reported, with any props, is a simple cycle of imports. */
  lemma {:induction false} CyclesAreGenuine<P(!new)>(site: Site<P>, chain: seq<string>, name: string, props: P)
    requires Leads(site, chain, name)
    ensures Genuine(site, Render(site, chain, name, props))
    decreases site.names - Names(chain), 1, 0
  {
    if name in chain {
      CycleOfChain(site, chain, name);
    } else if name in site.names {
      ChainGrows(site.names, chain, name);
      forall k: nat | k < |site.emits(name, props)|
        ensures Leads(site, chain + [name], site.emits(name, props)[k].name)
      {
        LeadsFurther(site, chain, name, props, k);
      }
      AllGenuine(site, chain + [name], site.emits(name, props));
    }
  }

  lemma {:induction false} AllGenuine<P(!new)>(site: Site<P>, chain: seq<string>, refs: seq<Ref<P>>)
    requires forall k: nat | k < |refs| :: Leads(site, chain, refs[k].name)
    ensures forall i | 0 <= i < |RenderAll(site, chain, refs)| :: Genuine(site, RenderAll(site, chain, refs)[i])
    decreases site.names - Names(chain), 2, |refs|
  {
    if refs != [] {
      assert Leads(site, chain, refs[0].name);
      CyclesAreGenuine(site, chain, refs[0].name, refs[0].props);
      forall k: nat | k < |refs[1..]| ensures Leads(site, chain, refs[1..][k].name) {
        assert Leads(site, chain, refs[k + 1].name);
      }
      AllGenuine(site, chain, refs[1..]);
    }
  }

  lemma CycleOfChain<P(!new)>(site: Site<P>, chain: seq<string>, name: string)
    requires Leads(site, chain, name) && name in chain
    ensures SimpleCycle(site, chain[IndexOf(chain, name)..] + [name])
  {
    var tail := chain[IndexOf(chain, name)..];
    var cycle := tail + [name];
    assert cycle[..|cycle| - 1] == tail;
    assert tail[|tail| - 1] == chain[|chain| - 1];
    forall i | 0 <= i < |tail| - 1 ensures Imports(site, tail[i], tail[i + 1]) {
      var k := IndexOf(chain, name) + i;
      assert Imports(site, chain[k], chain[k + 1]);
    }
  }

  // ---------------------------------------------------------------- when a cycle is reported

  predicate NoCircular(t: Tree) {
    match t
    case Circular(_, _) => false
    case Node(_, kids) => forall i | 0 <= i < |kids| :: NoCircular(kids[i])
    case Missing(_) | Cut(_) => true
  }

  predicate NoCut(t: Tree) {
    match t
    case Cut(_) => false
    case Node(_, kids) => forall i | 0 <= i < |kids| :: NoCut(kids[i])
    case Missing(_) | Circular(_, _) => true
  }

  /** On some way down from the root a name comes back. */
  predicate Repeats(chain: seq<string>, t: Tree)
    decreases t
  {
    match t
    case Node(name, kids) => name in chain || exists i | 0 <= i < |kids| :: Repeats(chain + [name], kids[i])
    case _ => t.name in chain
  }

  ghost predicate Within(site: set<string>, chain: seq<string>) {
    && (forall i, j | 0 <= i < j < |chain| :: chain[i] != chain[j])
    && forall i | 0 <= i < |chain| :: chain[i] in site
  }

  lemma {:induction false} NamesSize(chain: seq<string>)
    requires forall i, j | 0 <= i < j < |chain| :: chain[i] != chain[j]
    ensures |Names(chain)| == |chain|
  {
    if chain != [] {
      var n := |chain| - 1;
      var shorter := chain[..n];
      NamesSize(shorter);
      assert chain[n] !in shorter;
      ChainGrows({chain[n]}, shorter, chain[n]);
      assert chain == shorter + [chain[n]];
    }
  }

  /** Budget for the names that are not in the chain is budget enough. */
  lemma Budget(names: set<string>, chain: seq<string>, name: string)
    requires Within(names, chain) && |chain| >= |names| && name in names
    ensures name in chain
  {
    NamesSize(chain);
    assert Names(chain) <= names by {
      forall x | x in Names(chain) ensures x in names {
        var i :| 0 <= i < |chain| && chain[i] == x;
      }
    }
    if name !in chain {
      assert name !in Names(chain);
      assert Names(chain) <= names - {name};
      SizeOfSubset(Names(chain), names - {name});
      assert false;
    }
  }

  lemma {:induction false} SizeOfSubset(a: set<string>, b: set<string>)
    requires a <= b
    ensures |a| <= |b|
  {
    assert b == a + (b - a);
  }

  /**
   A circular import is reported exactly when, in the unchecked rendering, some way down from the
   root repeats a name; and if none is reported, the check has changed nothing.
   */
  lemma {:induction false} ReportedExactly<P>(site: Site<P>, chain: seq<string>, name: string, props: P, fuel: nat)
    requires Within(site.names, chain) && |chain| + fuel >= |site.names|
    ensures NoCircular(Render(site, chain, name, props)) <==> !Repeats(chain, Unfold(site, fuel, name, props))
    ensures NoCircular(Render(site, chain, name, props)) ==>
              Render(site, chain, name, props) == Unfold(site, fuel, name, props) && NoCut(Unfold(site, fuel, name, props))
    decreases site.names - Names(chain), 1, 0
  {
    if name in site.names && fuel == 0 {
      Budget(site.names, chain, name);
    } else if name in site.names && name !in chain {
      ChainGrows(site.names, chain, name);
      AllReported(site, chain + [name], site.emits(name, props), fuel - 1);
    }
  }

  lemma {:induction false} AllReported<P>(site: Site<P>, chain: seq<string>, refs: seq<Ref<P>>, fuel: nat)
    requires Within(site.names, chain) && |chain| + fuel >= |site.names|
    ensures var a, b := RenderAll(site, chain, refs), UnfoldAll(site, fuel, refs);
            && |a| == |b| == |refs|
            && ((forall i | 0 <= i < |a| :: NoCircular(a[i])) <==> !exists i | 0 <= i < |b| :: Repeats(chain, b[i]))
            && ((forall i | 0 <= i < |a| :: NoCircular(a[i])) ==> a == b && forall i | 0 <= i < |b| :: NoCut(b[i]))
    decreases site.names - Names(chain), 2, |refs|
  {
    if refs != [] {
      ReportedExactly(site, chain, refs[0].name, refs[0].props, fuel);
      AllReported(site, chain, refs[1..], fuel);
      var a, b := RenderAll(site, chain, refs), UnfoldAll(site, fuel, refs);
      var a', b' := RenderAll(site, chain, refs[1..]), UnfoldAll(site, fuel, refs[1..]);
      Cons(a[0], a', b[0], b', chain);
    }
  }

  lemma Cons(x: Tree, a: seq<Tree>, y: Tree, b: seq<Tree>, chain: seq<string>)
    ensures (forall i | 0 <= i < |[x] + a| :: NoCircular(([x] + a)[i])) <==>
            NoCircular(x) && forall i | 0 <= i < |a| :: NoCircular(a[i])
    ensures (exists i | 0 <= i < |[y] + b| :: Repeats(chain, ([y] + b)[i])) <==>
            Repeats(chain, y) || exists i | 0 <= i < |b| :: Repeats(chain, b[i])
    ensures (forall i | 0 <= i < |[y] + b| :: NoCut(([y] + b)[i])) <==>
            NoCut(y) && forall i | 0 <= i < |b| :: NoCut(b[i])
  {
    var xs, ys := [x] + a, [y] + b;
    assert xs[0] == x && ys[0] == y;
    assert forall i | 0 <= i < |a| :: xs[i + 1] == a[i];
    assert forall i | 0 <= i < |b| :: ys[i + 1] == b[i];
    assert forall i | 0 < i < |xs| :: xs[i] == a[i - 1];
    assert forall i | 0 < i < |ys| :: ys[i] == b[i - 1];
  }

  /** A tree without reported cycles, where every reported cycle is genuine and there are none. */
  lemma {:induction false} NoneGenuine<P(!new)>(site: Site<P>, t: Tree)
    requires Genuine(site, t) && forall cycle :: !SimpleCycle(site, cycle)
    ensures NoCircular(t)
    decreases t
  {
    if t.Node? {
      forall i | 0 <= i < |t.kids| ensures NoCircular(t.kids[i]) { NoneGenuine(site, t.kids[i]); }
    }
  }

  /** If no imports form a cycle the page is the full unfolding, without any error in it. */
  lemma AcyclicIsFull<P(!new)>(site: Site<P>, name: string, props: P)
    requires forall cycle :: !SimpleCycle(site, cycle)
    ensures NoCircular(Render(site, [], name, props))
    ensures Render(site, [], name, props) == Unfold(site, |site.names|, name, props)
    ensures NoCut(Unfold(site, |site.names|, name, props))
  {
    CyclesAreGenuine(site, [], name, props);
    NoneGenuine(site, Render(site, [], name, props));
    ReportedExactly(site, [], name, props, |site.names|);
  }

  /** No name stands twice on a way down, and no way down is longer than `n`. */
  predicate Bounded(chain: seq<string>, t: Tree, n: int)
    decreases t
  {
    t.Node? ==> t.name !in chain && n > 0 && forall i | 0 <= i < |t.kids| :: Bounded(chain + [t.name], t.kids[i], n - 1)
  }

  /** Chains never repeat a name, so a page is at most as deep as there are components. */
  lemma {:induction false} DepthIsBounded<P>(site: Site<P>, chain: seq<string>, name: string, props: P)
    requires Within(site.names, chain)
    ensures Bounded(chain, Render(site, chain, name, props), |site.names| - |chain|)
    decreases site.names - Names(chain), 1, 0
  {
    if name in site.names && name !in chain {
      if |chain| >= |site.names| { Budget(site.names, chain, name); }
      ChainGrows(site.names, chain, name);
      AllBounded(site, chain + [name], site.emits(name, props));
    }
  }

  lemma {:induction false} AllBounded<P>(site: Site<P>, chain: seq<string>, refs: seq<Ref<P>>)
    requires Within(site.names, chain)
    ensures forall i | 0 <= i < |RenderAll(site, chain, refs)| ::
              Bounded(chain, RenderAll(site, chain, refs)[i], |site.names| - |chain|)
    decreases site.names - Names(chain), 2, |refs|
  {
    if refs != [] {
      DepthIsBounded(site, chain, refs[0].name, refs[0].props);
      AllBounded(site, chain, refs[1..]);
    }
  }

  // ---------------------------------------------------------------- sites whose imports do not depend on props

  /** Each template emits the same components in the same order for all props. */
  ghost predicate Static<P(!new)>(site: Site<P>) {
    forall n: string, p: P, q: P ::
      && |site.emits(n, p)| == |site.emits(n, q)|
      && forall i | 0 <= i < |site.emits(n, p)| :: site.emits(n, p)[i].name == site.emits(n, q)[i].name
  }

  lemma {:induction false} UnfoldAllAt<P>(site: Site<P>, fuel: nat, refs: seq<Ref<P>>)
    ensures |UnfoldAll(site, fuel, refs)| == |refs|
    ensures forall i | 0 <= i < |refs| :: UnfoldAll(site, fuel, refs)[i] == Unfold(site, fuel, refs[i].name, refs[i].props)
    decreases |refs|
  {
    if refs != [] { UnfoldAllAt(site, fuel, refs[1..]); }
  }

  lemma {:induction false} RenderAllAt<P>(site: Site<P>, chain: seq<string>, refs: seq<Ref<P>>)
    ensures |RenderAll(site, chain, refs)| == |refs|
    ensures forall i | 0 <= i < |refs| :: RenderAll(site, chain, refs)[i] == Render(site, chain, refs[i].name, refs[i].props)
    decreases |refs|
  {
    if refs != [] { RenderAllAt(site, chain, refs[1..]); }
  }

  /** On a static site a larger budget and other props never lead to a cut. */
  lemma {:induction false} NoCutMonotone<P(!new)>(site: Site<P>, f: nat, g: nat, name: string, p: P, q: P)
    requires Static(site) && f <= g && NoCut(Unfold(site, f, name, p))
    ensures NoCut(Unfold(site, g, name, q))
    decreases f
  {
    if name in site.names {
      var a, b := site.emits(name, p), site.emits(name, q);
      UnfoldAllAt(site, f - 1, a);
      UnfoldAllAt(site, g - 1, b);
      var ts := UnfoldAll(site, g - 1, b);
      forall i | 0 <= i < |ts|
        ensures NoCut(ts[i])
      {
        assert NoCut(UnfoldAll(site, f - 1, a)[i]);
        NoCutMonotone(site, f - 1, g - 1, a[i].name, a[i].props, b[i].props);
      }
    }
  }

  /** The components of the chain need a larger budget than the one rendered under it, so it is not among them. */
  lemma {:induction false} NoCutNoCircle<P(!new)>(site: Site<P>, chain: seq<string>, name: string, p: P, f: nat)
    requires Static(site) && NoCut(Unfold(site, f, name, p))
    requires forall c, q: P | c in chain :: !NoCut(Unfold(site, f, c, q))
    ensures NoCircular(Render(site, chain, name, p))
    decreases f
  {
    if name in site.names {
      assert name !in chain;
      var h := f - 1;
      if NoCut(Unfold(site, h, name, p)) {
        forall c, q: P | c in chain ensures !NoCut(Unfold(site, h, c, q)) {
          if NoCut(Unfold(site, h, c, q)) { NoCutMonotone(site, h, f, c, q, q); }
        }
        NoCutNoCircle(site, chain, name, p, h);
      } else {
        NoCutKids(site, chain, name, p, f);
      }
    }
  }

  lemma {:induction false} NoCutKids<P(!new)>(site: Site<P>, chain: seq<string>, name: string, p: P, f: nat)
    requires Static(site) && name in site.names && name !in chain && f > 0
    requires NoCut(Unfold(site, f, name, p)) && !NoCut(Unfold(site, f - 1, name, p))
    requires forall c, q: P | c in chain :: !NoCut(Unfold(site, f, c, q))
    ensures NoCircular(Render(site, chain, name, p))
    decreases f, 0
  {
    var refs := site.emits(name, p);
    UnfoldAllAt(site, f - 1, refs);
    RenderAllAt(site, chain + [name], refs);
    var h := f - 1;
    forall c, q: P | c in chain + [name] ensures !NoCut(Unfold(site, h, c, q)) {
      if NoCut(Unfold(site, h, c, q)) {
        if c in chain { NoCutMonotone(site, h, f, c, q, q); } else { NoCutMonotone(site, h, h, name, q, p); }
      }
    }
    forall i | 0 <= i < |refs|
      ensures NoCircular(RenderAll(site, chain + [name], refs)[i])
    {
      assert NoCut(UnfoldAll(site, f - 1, refs)[i]);
      NoCutNoCircle(site, chain + [name], refs[i].name, refs[i].props, f - 1);
    }
  }

  /**
   On a site with fixed imports the check fires exactly when rendering without it would never
   end, and otherwise the page is the full unfolding.
   */
  lemma StaticExactly<P(!new)>(site: Site<P>, name: string, props: P)
    requires Static(site)
    ensures NoCircular(Render(site, [], name, props)) <==> exists fuel: nat :: NoCut(Unfold(site, fuel, name, props))
    ensures forall fuel: nat :: NoCut(Unfold(site, fuel, name, props)) ==>
              Render(site, [], name, props) == Unfold(site, |site.names|, name, props)
  {
    ReportedExactly(site, [], name, props, |site.names|);
    forall fuel: nat | NoCut(Unfold(site, fuel, name, props))
      ensures NoCircular(Render(site, [], name, props))
    {
      NoCutNoCircle(site, [], name, props, fuel);
    }
  }

  /** Rendering without the check comes to an end. */
  ghost predicate Ends<P>(site: Site<P>, name: string, props: P) {
    exists fuel: nat :: NoCut(Unfold(site, fuel, name, props))
  }

  /**
   On any site, imports that depend on props included: the check tells apart pages that end from pages
   that do not, except exactly if the page ends and yet repeats a name on some way down. Then it is cut.
   */
  lemma MisjudgedExactly<P>(site: Site<P>, name: string, props: P)
    ensures (NoCircular(Render(site, [], name, props)) <==> Ends(site, name, props)) <==>
            !(Ends(site, name, props) && Repeats([], Unfold(site, |site.names|, name, props)))
  {
    ReportedExactly(site, [], name, props, |site.names|);
  }

  /** One component that refers to itself with a smaller number, until zero. */
  function Countdown(): Site<int> {
    Site({"A"}, (n: string, k: int) => if k <= 0 then [] else [Ref("A", k - 1)])
  }

  /** With props that decide what is emitted the check also fires on recursion that would have ended. */
  lemma FiniteRecursionIsReported()
    ensures !NoCircular(Render(Countdown(), [], "A", 1)) && NoCut(Unfold(Countdown(), 2, "A", 1))
  {
    var site := Countdown();
    assert site.emits("A", 1) == [Ref("A", 0)];
    assert site.emits("A", 0) == [];
    assert [] + ["A"] == ["A"];
    RenderAllAt(site, ["A"], [Ref("A", 0)]);
    assert Render(site, ["A"], "A", 0).Circular?;
    assert !NoCircular(RenderAll(site, ["A"], [Ref("A", 0)])[0]);
    UnfoldAllAt(site, 1, [Ref("A", 0)]);
  }
}
