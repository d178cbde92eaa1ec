/** When the modules of one import list are evaluated in list order. */
module LoadOrder {
  import opened Prelude
  import opened Loader

  /** None of the urls was mentioned before, and none is mentioned twice. */
  predicate AllFresh(s: State, urls: seq<string>) {
    && (forall i | 0 <= i < |urls| :: urls[i] !in s.pending)
    && forall i, j | 0 <= i < j < |urls| :: urls[i] != urls[j]
  }

  /** The load that the url `i` places behind load `base` becomes. */
  function FreshLoad(s: State, kindOf: string -> Kind, urls: seq<string>, prev: Option<nat>, i: nat): Load
    requires |s.loads| <= i < |s.loads| + |urls|
  {
    var url := urls[i - |s.loads|];
    Load(url, kindOf(url) == Jsx && !s.present, if i == |s.loads| then prev else Some(i - 1), Waiting)
  }

  /** A list of fresh urls becomes a row of loads, each waiting for its left neighbour. */
  lemma {:induction false} ChainOfFresh(s: State, kindOf: string -> Kind, urls: seq<string>, prev: Option<nat>)
    requires AllFresh(s, urls)
    ensures var t := Chain(s, kindOf, urls, prev);
            && |t.loads| == |s.loads| + |urls| && s.loads <= t.loads
            && t.evaluated == s.evaluated && t.present == s.present && (t.babel == Ready <==> s.babel == Ready)
            && forall i | |s.loads| <= i < |t.loads| :: t.loads[i] == FreshLoad(s, kindOf, urls, prev, i)
    decreases |urls|
  {
    if urls != [] {
      var (u, j) := Request(s, kindOf(urls[0]), urls[0], prev);
      assert AllFresh(u, urls[1..]) by {
        forall j | 0 <= j < |urls[1..]| ensures urls[1..][j] !in u.pending { assert urls[1..][j] == urls[j + 1]; }
      }
      ChainOfFresh(u, kindOf, urls[1..], Some(j));
      var t := Chain(s, kindOf, urls, prev);
      forall i | |s.loads| <= i < |t.loads|
        ensures t.loads[i] == FreshLoad(s, kindOf, urls, prev, i)
      {
        if i == |s.loads| {
          assert t.loads[i] == u.loads[i];
        } else {
          assert urls[1..][i - |u.loads|] == urls[i - |s.loads|];
        }
      }
    }
  }

  /** Loads `base` to `base + n` form a row in which each waits for its left neighbour. */
  predicate Row(s: State, base: nat, n: nat) {
    base + n <= |s.loads| && forall i | base < i < base + n :: s.loads[i].after == Some(i - 1)
  }

  predicate Within(i: nat, base: nat, n: nat) {
    base <= i < base + n
  }

  /** Those of the row that were evaluated were evaluated from left to right. */
  predicate InOrder(s: State, base: nat, n: nat) {
    forall p, q | 0 <= p < q < |s.evaluated| ::
      Within(s.evaluated[p], base, n) && Within(s.evaluated[q], base, n) ==> s.evaluated[p] < s.evaluated[q]
  }

  /** No load that waits for Babel stands between two that do not. */
  predicate Smooth(s: State, base: nat, n: nat)
    requires Row(s, base, n)
  {
    forall a, b, c | base <= a < b < c < base + n :: !s.loads[a].onBabel && s.loads[b].onBabel ==> s.loads[c].onBabel
  }

  // ---------------------------------------------------------------- order is kept

  /**
   If a load of the row was evaluated, every one to its left has settled, unless Babel failed in a row
   that is not smooth.
   */
  lemma {:induction false} EarlierSettled(s: State, base: nat, n: nat, a: nat, j: nat, c: nat)
    requires Inv(s) && Row(s, base, n) && (s.babel != Failed || Smooth(s, base, n))
    requires base <= a <= j < c < base + n && c in s.evaluated
    requires s.loads[a].onBabel ==> s.babel == Ready
    ensures Done(s, j)
    decreases c - j
  {
    assert LoadOk(s, c) && LoadOk(s, j + 1);
    if j + 1 < c {
      EarlierSettled(s, base, n, a, j + 1, c);
      if s.loads[j + 1].onBabel && s.babel == Failed {
        assert false;
      }
    }
  }

  lemma OrderNext(s: State, step: Step, base: nat, n: nat)
    requires Inv(s) && Enabled(s, step) && Row(s, base, n) && (s.babel != Failed || Smooth(s, base, n))
    requires InOrder(s, base, n)
    ensures InOrder(Next(s, step), base, n)
  {
    if step.Import? {
      ChainSameEvaluated(s, step.kindOf, step.urls, None);
    } else if step.Evaluate? {
      var t := Next(s, step);
      forall p, q | 0 <= p < q < |t.evaluated| && Within(t.evaluated[p], base, n) && Within(t.evaluated[q], base, n)
        ensures t.evaluated[p] < t.evaluated[q]
      {
        if q == |s.evaluated| {
          var a, c := step.i, s.evaluated[p];
          assert LoadOk(s, a) && c in s.evaluated && LoadOk(s, c);
          if a < c { EarlierSettled(s, base, n, a, a, c); }
        }
      }
    }
  }

  lemma RowLater(s: State, t: State, base: nat, n: nat)
    requires Later(s, t) && Row(s, base, n)
    ensures Row(t, base, n) && (Smooth(t, base, n) <==> Smooth(s, base, n))
  {
    assert forall i | base <= i < base + n :: t.loads[i].after == s.loads[i].after && t.loads[i].onBabel == s.loads[i].onBabel;
  }

  lemma {:induction false} ChainForgivesNothing(s: State, kindOf: string -> Kind, urls: seq<string>, prev: Option<nat>)
    requires s.babel == Failed
    ensures Chain(s, kindOf, urls, prev).babel == Failed
    decreases |urls|
  {
    if urls != [] {
      var (t, i) := Request(s, kindOf(urls[0]), urls[0], prev);
      ChainForgivesNothing(t, kindOf, urls[1..], Some(i));
    }
  }

  /** A failure of Babel is final. */
  lemma {:induction false} FailureIsFinal(s: State, steps: seq<Step>)
    requires Legal(s, steps) && s.babel == Failed
    ensures Run(s, steps).babel == Failed
    decreases |steps|
  {
    if steps != [] {
      if steps[0].Import? { ChainForgivesNothing(s, steps[0].kindOf, steps[0].urls, None); }
      FailureIsFinal(Next(s, steps[0]), steps[1..]);
    }
  }

  /**
   A run in which Babel does not fail, be it there already, still loading, or loaded on the way, keeps
   the order of every row, whatever the row mixes. If Babel fails, smooth rows still keep theirs.
   */
  lemma {:induction false} OrderKept(s: State, steps: seq<Step>, base: nat, n: nat)
    requires Inv(s) && Legal(s, steps) && Row(s, base, n) && InOrder(s, base, n)
    requires Run(s, steps).babel != Failed || Smooth(s, base, n)
    ensures InOrder(Run(s, steps), base, n)
    decreases |steps|
  {
    if steps != [] {
      if s.babel == Failed { FailureIsFinal(s, steps); }
      OrderNext(s, steps[0], base, n);
      InvNext(s, steps[0]);
      LaterNext(s, steps[0]);
      RowLater(s, Next(s, steps[0]), base, n);
      OrderKept(Next(s, steps[0]), steps[1..], base, n);
    }
  }

  // ---------------------------------------------------------------- order is lost

  lemma {:induction false} RunConcat(s: State, a: seq<Step>, b: seq<Step>)
    requires Legal(s, a) && Legal(Run(s, a), b)
    ensures Legal(s, a + b) && Run(s, a + b) == Run(Run(s, a), b)
    decreases |a|
  {
    if a == [] {
      assert a + b == b;
    } else {
      assert (a + b)[0] == a[0] && (a + b)[1..] == a[1..] + b;
      RunConcat(Next(s, a[0]), a[1..], b);
    }
  }

  lemma RunOne(s: State, step: Step)
    requires Enabled(s, step)
    ensures Legal(s, [step]) && Run(s, [step]) == Next(s, step)
  {
    assert [step][1..] == [];
    assert Legal(Next(s, step), []);
  }

  /** Same loads outside `lo` to `hi`, nothing evaluated, Babel as it was. */
  predicate SameOutside(s: State, t: State, lo: nat, hi: nat) {
    && |t.loads| == |s.loads| && t.evaluated == s.evaluated && t.babel == s.babel
    && forall i | 0 <= i < |s.loads| && !(lo <= i < hi) :: t.loads[i] == s.loads[i]
  }

  /** After a Babel failure a stretch of loads that wait for Babel can all give up at once. */
  lemma {:induction false} RejectAll(s: State, lo: nat, hi: nat) returns (steps: seq<Step>)
    requires Inv(s) && s.babel == Failed && lo <= hi <= |s.loads|
    requires forall i | lo <= i < hi :: s.loads[i].onBabel && s.loads[i].status == Waiting
    ensures Legal(s, steps) && Inv(Run(s, steps)) && SameOutside(s, Run(s, steps), lo, hi)
    ensures forall i | lo <= i < hi :: Done(Run(s, steps), i)
    decreases hi - lo
  {
    if lo == hi {
      steps := [];
    } else {
      var t := Next(s, Reject(lo));
      InvNext(s, Reject(lo));
      var rest := RejectAll(t, lo + 1, hi);
      RunOne(s, Reject(lo));
      RunConcat(s, [Reject(lo)], rest);
      steps := [Reject(lo)] + rest;
      var u := Run(s, steps);
      assert u.loads[lo] == t.loads[lo];
      forall i | 0 <= i < |s.loads| && !(lo <= i < hi) ensures u.loads[i] == s.loads[i] {
        assert u.loads[i] == t.loads[i];
      }
    }
  }

  /** Failing fetches settle everything to the left of a load without evaluating anything. */
  lemma {:induction false} SettleBelow(s: State, hi: nat) returns (steps: seq<Step>)
    requires Inv(s) && s.babel == Failed && hi <= |s.loads|
    ensures Legal(s, steps) && Inv(Run(s, steps)) && SameOutside(s, Run(s, steps), 0, hi)
    ensures forall i | 0 <= i < hi :: Done(Run(s, steps), i)
    decreases hi
  {
    if hi == 0 {
      steps := [];
    } else {
      var first := SettleBelow(s, hi - 1);
      var t := Run(s, first);
      var last := SettleOne(t, hi - 1);
      RunConcat(s, first, last);
      steps := first + last;
      var u := Run(s, steps);
      forall i | 0 <= i < hi ensures Done(u, i) { if i < hi - 1 { assert Done(t, i) && u.loads[i] == t.loads[i]; } }
      forall i | 0 <= i < |s.loads| && !(0 <= i < hi) ensures u.loads[i] == s.loads[i] {
        assert u.loads[i] == t.loads[i];
      }
    }
  }

  lemma SettleOne(s: State, i: nat) returns (steps: seq<Step>)
    requires Inv(s) && s.babel == Failed && i < |s.loads| && forall j | 0 <= j < i :: Done(s, j)
    ensures Legal(s, steps) && Inv(Run(s, steps)) && SameOutside(s, Run(s, steps), i, i + 1) && Done(Run(s, steps), i)
  {
    if Done(s, i) {
      steps := [];
    } else {
      FirstCanReact(s, i);
      var step := Reaction(s, i);
      RunOne(s, step);
      InvNext(s, step);
      steps := [step];
      if step.Begin? {
        var t := Next(s, step);
        RunOne(t, FetchFails(i));
        InvNext(t, FetchFails(i));
        RunConcat(s, steps, [FetchFails(i)]);
        steps := steps + [FetchFails(i)];
      }
    }
  }

  /** A load that does not wait for Babel, whose left neighbour is through, can run up to its evaluation. */
  lemma EvaluateOne(s: State, i: nat) returns (steps: seq<Step>)
    requires Inv(s) && i < |s.loads| && s.loads[i].status == Waiting && !s.loads[i].onBabel && AfterDone(s, i)
    ensures Legal(s, steps) && Inv(Run(s, steps))
    ensures var t := Run(s, steps);
            && |t.loads| == |s.loads| && t.babel == s.babel && t.evaluated == s.evaluated + [i]
            && forall j | 0 <= j < |s.loads| && j != i :: t.loads[j] == s.loads[j]
  {
    RunOne(s, Begin(i));
    InvNext(s, Begin(i));
    var t := Next(s, Begin(i));
    RunOne(t, Evaluate(i));
    InvNext(t, Evaluate(i));
    RunConcat(s, [Begin(i)], [Evaluate(i)]);
    steps := [Begin(i)] + [Evaluate(i)];
  }

  lemma LeftEdge(s: State, a0: nat, b: nat) returns (a: nat)
    requires a0 < b < |s.loads| && !s.loads[a0].onBabel && s.loads[b].onBabel
    ensures a0 <= a < b && !s.loads[a].onBabel && forall i | a < i <= b :: s.loads[i].onBabel
  {
    a := b - 1;
    while s.loads[a].onBabel
      invariant a0 <= a < b
      invariant forall i | a < i <= b :: s.loads[i].onBabel
      decreases a
    {
      a := a - 1;
    }
  }

  lemma RightEdge(s: State, b: nat, c0: nat) returns (c: nat)
    requires b < c0 < |s.loads| && s.loads[b].onBabel && !s.loads[c0].onBabel
    ensures b < c <= c0 && !s.loads[c].onBabel && forall i | b <= i < c :: s.loads[i].onBabel
  {
    c := b + 1;
    while s.loads[c].onBabel
      invariant b < c <= c0
      invariant forall i | b <= i < c :: s.loads[i].onBabel
      decreases c0 - c
    {
      c := c + 1;
    }
  }

  /** The Babel loads between two others, as short a stretch as possible. */
  lemma Sandwich(s: State, base: nat, n: nat) returns (a: nat, c: nat)
    requires Row(s, base, n) && !Smooth(s, base, n)
    ensures base <= a && a + 1 < c < base + n && !s.loads[a].onBabel && !s.loads[c].onBabel
    ensures forall i | a < i < c :: s.loads[i].onBabel
  {
    var a0, b, c0 :| base <= a0 < b < c0 < base + n && !s.loads[a0].onBabel && s.loads[b].onBabel && !s.loads[c0].onBabel;
    a := LeftEdge(s, a0, b);
    c := RightEdge(s, b, c0);
  }

  /** After a Babel failure the right one does not have to wait for the left one. */
  lemma RightOvertakes(s: State, a: nat, c: nat) returns (steps: seq<Step>)
    requires Inv(s) && s.babel == Failed && a + 1 < c < |s.loads|
    requires forall i | a < i < c :: s.loads[i].onBabel && s.loads[i].status == Waiting
    requires !s.loads[c].onBabel && s.loads[c].status == Waiting && s.loads[c].after == Some(c - 1)
    ensures Legal(s, steps) && Inv(Run(s, steps))
    ensures var t := Run(s, steps);
            t.babel == Failed && |t.loads| == |s.loads| && t.loads[a] == s.loads[a] && t.evaluated == s.evaluated + [c]
  {
    var rejects := RejectAll(s, a + 1, c);
    var t := Run(s, rejects);
    assert t.loads[c] == s.loads[c] && Done(t, c - 1);
    var right := EvaluateOne(t, c);
    RunConcat(s, rejects, right);
    steps := rejects + right;
  }

  lemma LeftFollows(s: State, a: nat) returns (steps: seq<Step>)
    requires Inv(s) && s.babel == Failed && a < |s.loads|
    requires !s.loads[a].onBabel && s.loads[a].status == Waiting
    ensures Legal(s, steps) && Run(s, steps).evaluated == s.evaluated + [a]
  {
    var settle := SettleBelow(s, a);
    var t := Run(s, settle);
    assert t.loads[a] == s.loads[a] && LoadOk(t, a);
    var left := EvaluateOne(t, a);
    RunConcat(s, settle, left);
    steps := settle + left;
  }

  /** So the right one can be evaluated before the left one. */
  lemma OrderLost(s: State, base: nat, n: nat) returns (steps: seq<Step>)
    requires Inv(s) && Row(s, base, n) && !Smooth(s, base, n) && s.babel != Ready
    requires forall i | base <= i < base + n :: s.loads[i].status == Waiting
    ensures Legal(s, steps) && !InOrder(Run(s, steps), base, n)
  {
    var a, c := Sandwich(s, base, n);
    assert s.babel != Idle by { assert LoadOk(s, a + 1); }
    var fail := if s.babel == Loading then [BabelSettles(false)] else [];
    var t := Failing(s, fail);
    var right := RightOvertakes(t, a, c);
    var u := Run(t, right);
    var left := LeftFollows(u, a);
    RunConcat(t, right, left);
    RunConcat(s, fail, right + left);
    steps := fail + (right + left);
    Inversion(Run(s, steps), s.evaluated, c, a, base, n);
  }

  lemma Inversion(s: State, before: seq<nat>, c: nat, a: nat, base: nat, n: nat)
    requires s.evaluated == before + [c] + [a] && base <= a < c < base + n
    ensures !InOrder(s, base, n)
  {
    var p := |before|;
    assert s.evaluated[p] == c && s.evaluated[p + 1] == a;
    assert Within(s.evaluated[p], base, n) && Within(s.evaluated[p + 1], base, n);
  }

  lemma Failing(s: State, fail: seq<Step>) returns (t: State)
    requires Inv(s) && s.babel != Idle && s.babel != Ready
    requires fail == if s.babel == Loading then [BabelSettles(false)] else []
    ensures Legal(s, fail) && t == Run(s, fail) && Inv(t)
    ensures t.babel == Failed && t.loads == s.loads && t.evaluated == s.evaluated
  {
    if s.babel == Loading {
      RunOne(s, BabelSettles(false));
      InvNext(s, BabelSettles(false));
    }
    t := Run(s, fail);
  }

  // ---------------------------------------------------------------- the exact condition

  /** Some plain script stands on each side of a jsx module. */
  predicate HasSandwich(kindOf: string -> Kind, urls: seq<string>) {
    exists a, b, c | 0 <= a < b < c < |urls| ::
      kindOf(urls[a]) == Script && kindOf(urls[b]) == Jsx && kindOf(urls[c]) == Script
  }

  /** Whatever happens from `s` on, the row is evaluated from left to right. */
  ghost predicate AlwaysInOrder(s: State, base: nat, n: nat) {
    forall steps | Legal(s, steps) :: InOrder(Run(s, steps), base, n)
  }

  /**
   If Babel does not fail, the modules of an import list of fresh urls are evaluated in list order:
   in every run from the import on, whatever else happens in it. Without a plain script on each side
   of a jsx module the same holds even if Babel fails.
   */
  lemma ListOrderInRun(s: State, kindOf: string -> Kind, urls: seq<string>, steps: seq<Step>)
    requires Inv(s) && AllFresh(s, urls) && Legal(Chain(s, kindOf, urls, None), steps)
    ensures var t := Run(Chain(s, kindOf, urls, None), steps);
            t.babel != Failed || s.present || !HasSandwich(kindOf, urls) ==> InOrder(t, |s.loads|, |urls|)
  {
    var t, base, n := Chain(s, kindOf, urls, None), |s.loads|, |urls|;
    ChainOfFresh(s, kindOf, urls, None);
    InvChain(s, kindOf, urls, None);
    SmoothExactly(s, t, kindOf, urls);
    NoneEvaluated(s, t, base, n);
    if Run(t, steps).babel != Failed || Smooth(t, base, n) {
      OrderKept(t, steps, base, n);
    }
  }

  lemma {:induction false} ReadyIsFinal(s: State, steps: seq<Step>)
    requires Legal(s, steps) && s.babel == Ready
    ensures Run(s, steps).babel == Ready
    decreases |steps|
  {
    if steps != [] {
      LaterNext(s, steps[0]);
      ReadyIsFinal(Next(s, steps[0]), steps[1..]);
    }
  }

  /**
   So the list order holds in every run, failing ones included, exactly when Babel is there already
   or no jsx module stands between two plain scripts. Otherwise a Babel failure lets the right script
   overtake the left one.
   */
  lemma ListOrderExactly(s: State, kindOf: string -> Kind, urls: seq<string>)
    requires Inv(s) && AllFresh(s, urls)
    ensures AlwaysInOrder(Chain(s, kindOf, urls, None), |s.loads|, |urls|) <==>
            s.babel == Ready || s.present || !HasSandwich(kindOf, urls)
  {
    var t, base, n := Chain(s, kindOf, urls, None), |s.loads|, |urls|;
    ChainOfFresh(s, kindOf, urls, None);
    InvChain(s, kindOf, urls, None);
    SmoothExactly(s, t, kindOf, urls);
    if s.babel == Ready || s.present || !HasSandwich(kindOf, urls) {
      forall steps | Legal(t, steps) ensures InOrder(Run(t, steps), base, n) {
        if s.babel == Ready { ReadyIsFinal(t, steps); }
        ListOrderInRun(s, kindOf, urls, steps);
      }
    } else {
      var steps := OrderLost(t, base, n);
    }
  }

  lemma FreshRow(s: State, t: State, kindOf: string -> Kind, urls: seq<string>)
    requires |t.loads| == |s.loads| + |urls|
    requires forall i | |s.loads| <= i < |t.loads| :: t.loads[i] == FreshLoad(s, kindOf, urls, None, i)
    ensures Row(t, |s.loads|, |urls|)
  {
  }

  lemma SmoothExactly(s: State, t: State, kindOf: string -> Kind, urls: seq<string>)
    requires |t.loads| == |s.loads| + |urls|
    requires forall i | |s.loads| <= i < |t.loads| :: t.loads[i] == FreshLoad(s, kindOf, urls, None, i)
    ensures Row(t, |s.loads|, |urls|)
    ensures Smooth(t, |s.loads|, |urls|) <==> s.present || !HasSandwich(kindOf, urls)
  {
    FreshRow(s, t, kindOf, urls);
    if !Smooth(t, |s.loads|, |urls|) {
      LoadsSandwich(s, t, kindOf, urls);
    } else if !s.present && HasSandwich(kindOf, urls) {
      SandwichLoads(s, t, kindOf, urls);
    }
  }

  lemma LoadsSandwich(s: State, t: State, kindOf: string -> Kind, urls: seq<string>)
    requires |t.loads| == |s.loads| + |urls|
    requires forall i | |s.loads| <= i < |t.loads| :: t.loads[i] == FreshLoad(s, kindOf, urls, None, i)
    requires Row(t, |s.loads|, |urls|) && !Smooth(t, |s.loads|, |urls|)
    ensures !s.present && HasSandwich(kindOf, urls)
  {
    var base, n := |s.loads|, |urls|;
    var a, b, c :| base <= a < b < c < base + n && !t.loads[a].onBabel && t.loads[b].onBabel && !t.loads[c].onBabel;
    assert kindOf(urls[a - base]) == Script && kindOf(urls[b - base]) == Jsx && kindOf(urls[c - base]) == Script;
  }

  lemma SandwichLoads(s: State, t: State, kindOf: string -> Kind, urls: seq<string>)
    requires |t.loads| == |s.loads| + |urls| && !s.present && HasSandwich(kindOf, urls)
    requires forall i | |s.loads| <= i < |t.loads| :: t.loads[i] == FreshLoad(s, kindOf, urls, None, i)
    requires Row(t, |s.loads|, |urls|)
    ensures !Smooth(t, |s.loads|, |urls|)
  {
    var a, b, c :| 0 <= a < b < c < |urls| && kindOf(urls[a]) == Script && kindOf(urls[b]) == Jsx && kindOf(urls[c]) == Script;
    var i, j, k := |s.loads| + a, |s.loads| + b, |s.loads| + c;
    assert !t.loads[i].onBabel && t.loads[j].onBabel && !t.loads[k].onBabel;
  }

  /** Fresh loads have not been evaluated. */
  lemma NoneEvaluated(s: State, t: State, base: nat, n: nat)
    requires Inv(s) && t.evaluated == s.evaluated && base == |s.loads|
    ensures InOrder(t, base, n)
  {
    forall p: nat | p < |s.evaluated| ensures !Within(s.evaluated[p], base, n) { assert EvalOk(s, p); }
  }
}
