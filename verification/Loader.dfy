/**
 The loader of external modules: promises that wait for Babel and for a predecessor, then fetch,
 evaluate and settle. Each reaction is one step; steps interleave freely.
 */
module Loader {
  import opened Prelude

  datatype Kind = Jsx | Script

  datatype Status = Waiting | Fetching | Evaluating | Settled(ok: bool)

  /** One load: `onBabel` if it waits for the shared Babel promise, `after` for an earlier load. */
  datatype Load = Load(url: string, onBabel: bool, after: Option<nat>, status: Status)

  /** The shared promise for the Babel script. */
  datatype Babel = Idle | Loading | Ready | Failed

  /** `pending` and `cache` are the loader's maps by url; a load in the cache without result is None. */
  datatype State = State(
    loads: seq<Load>,
    pending: map<string, nat>,
    cache: map<string, Option<bool>>,
    babel: Babel,
    present: bool,
    evaluated: seq<nat>)

  const INITIAL: State := State([], map[], map[], Idle, false, [])

  /** `load`: the load for a url, created at its first mention. */
  function Request(s: State, kind: Kind, url: string, after: Option<nat>): (State, nat) {
    if url in s.pending then (s, s.pending[url])
    else
      var waits := kind == Jsx && !s.present;
      var i := |s.loads|;
      (s.(loads := s.loads + [Load(url, waits, after, Waiting)],
          pending := s.pending[url := i],
          cache := s.cache[url := None],
          babel := if waits && s.babel == Idle then Loading else s.babel), i)
  }

  /** The loop over the urls of one import: each waits for the one before. */
  function Chain(s: State, kindOf: string -> Kind, urls: seq<string>, prev: Option<nat>): State
    decreases |urls|
  {
    if urls == [] then s
    else
      var (t, i) := Request(s, kindOf(urls[0]), urls[0], prev);
      Chain(t, kindOf, urls[1..], Some(i))
  }

  function SetStatus(s: State, i: nat, st: Status): State
    requires i < |s.loads|
  {
    var l := s.loads[i];
    s.(loads := s.loads[i := l.(status := st)],
       cache := if st.Settled? then s.cache[l.url := Some(st.ok)] else s.cache)
  }

  predicate Done(s: State, i: nat) {
    i < |s.loads| && s.loads[i].status.Settled?
  }

  predicate AfterDone(s: State, i: nat)
    requires i < |s.loads|
  {
    s.loads[i].after.None? || Done(s, s.loads[i].after.value)
  }

  datatype Step =
    | Import(kindOf: string -> Kind, urls: seq<string>)
    | BabelPresent(on: bool)
    | BabelSettles(ok: bool)
    | Reject(i: nat)
    | Begin(i: nat)
    | FetchFails(i: nat)
    | Evaluate(i: nat)
    | Finish(i: nat, ok: bool)

  /** The step belongs to a load that has been requested. */
  predicate OfLoad(step: Step) {
    step.Reject? || step.Begin? || step.FetchFails? || step.Evaluate? || step.Finish?
  }

  predicate Enabled(s: State, step: Step) {
    match step
    case Import(_, _) | BabelPresent(_) => true
    case BabelSettles(_) => s.babel == Loading
    case Reject(i) => i < |s.loads| && s.loads[i].status == Waiting && s.loads[i].onBabel && s.babel == Failed
    case Begin(i) =>
      && i < |s.loads| && s.loads[i].status == Waiting
      && (s.loads[i].onBabel ==> s.babel == Ready) && AfterDone(s, i)
    case FetchFails(i) => i < |s.loads| && s.loads[i].status == Fetching
    case Evaluate(i) => i < |s.loads| && s.loads[i].status == Fetching
    case Finish(i, _) => i < |s.loads| && s.loads[i].status == Evaluating
  }

  /** Imports come at any time, and so does Babel on the page. */
  lemma Freedom(s: State, kindOf: string -> Kind, urls: seq<string>, on: bool)
    ensures Enabled(s, Import(kindOf, urls)) && Enabled(s, BabelPresent(on))
    ensures s.babel == Loading ==> Enabled(s, BabelSettles(on))
  {
  }

  function Next(s: State, step: Step): State
    requires Enabled(s, step)
  {
    match step
    case Import(kindOf, urls) => Chain(s, kindOf, urls, None)
    case BabelPresent(on) => s.(present := on)
    case BabelSettles(ok) => s.(babel := if ok then Ready else Failed)
    case Reject(i) => SetStatus(s, i, Settled(false))
    case Begin(i) => SetStatus(s, i, Fetching)
    case FetchFails(i) => SetStatus(s, i, Settled(false))
    case Evaluate(i) => SetStatus(s, i, Evaluating).(evaluated := s.evaluated + [i])
    case Finish(i, ok) => SetStatus(s, i, Settled(ok))
  }

  predicate Legal(s: State, steps: seq<Step>)
    decreases |steps|
  {
    steps == [] || (Enabled(s, steps[0]) && Legal(Next(s, steps[0]), steps[1..]))
  }

  function Run(s: State, steps: seq<Step>): State
    requires Legal(s, steps)
    decreases |steps|
  {
    if steps == [] then s else Run(Next(s, steps[0]), steps[1..])
  }

  // ---------------------------------------------------------------- the invariant

  /** What holds of each load: it waits for an earlier one, and has passed a wait only when it was over. */
  predicate LoadOk(s: State, i: nat)
    requires i < |s.loads|
  {
    var l := s.loads[i];
    && l.url in s.pending && s.pending[l.url] == i
    && l.url in s.cache && s.cache[l.url] == (if l.status.Settled? then Some(l.status.ok) else None)
    && (l.after.Some? ==> l.after.value < i)
    && (l.onBabel ==> s.babel != Idle)
    && (l.status == Fetching || l.status == Evaluating || i in s.evaluated ==>
        AfterDone(s, i) && (l.onBabel ==> s.babel == Ready))
    && (i in s.evaluated ==> l.status == Evaluating || l.status.Settled?)
    && (l.status.Settled? ==> AfterDone(s, i) || (l.onBabel && s.babel == Failed))
  }

  /** Evaluation `p` comes after that of its predecessor, if that was evaluated at all. */
  ghost predicate EvalOk(s: State, p: nat)
    requires p < |s.evaluated|
  {
    var i := s.evaluated[p];
    && i < |s.loads|
    && i !in s.evaluated[..p]
    && (s.loads[i].after.Some? ==> s.loads[i].after.value !in s.evaluated[p..])
  }

  ghost predicate Inv(s: State) {
    && (forall u :: u in s.pending ==> s.pending[u] < |s.loads| && s.loads[s.pending[u]].url == u)
    && (forall i: nat | i < |s.loads| :: LoadOk(s, i))
    && (forall p: nat | p < |s.evaluated| :: EvalOk(s, p))
  }

  lemma InvRequest(s: State, kind: Kind, url: string, after: Option<nat>)
    requires Inv(s) && (after.Some? ==> after.value < |s.loads|)
    ensures var (t, i) := Request(s, kind, url, after); Inv(t) && i < |t.loads| && t.pending[url] == i
  {
    var (t, i) := Request(s, kind, url, after);
    if url !in s.pending {
      forall j: nat | j < |t.loads|
        ensures LoadOk(t, j)
      {
        if j < |s.loads| {
          assert LoadOk(s, j);
          assert t.loads[j] == s.loads[j];
        } else {
          assert j !in s.evaluated by {
            forall p: nat | p < |s.evaluated| ensures s.evaluated[p] != j { assert EvalOk(s, p); }
          }
        }
      }
      forall p: nat | p < |t.evaluated|
        ensures EvalOk(t, p)
      {
        assert EvalOk(s, p);
      }
    }
  }

  lemma {:induction false} InvChain(s: State, kindOf: string -> Kind, urls: seq<string>, prev: Option<nat>)
    requires Inv(s) && (prev.Some? ==> prev.value < |s.loads|)
    ensures Inv(Chain(s, kindOf, urls, prev))
    decreases |urls|
  {
    if urls != [] {
      InvRequest(s, kindOf(urls[0]), urls[0], prev);
      var (t, i) := Request(s, kindOf(urls[0]), urls[0], prev);
      InvChain(t, kindOf, urls[1..], Some(i));
    }
  }

  lemma InvStatus(s: State, step: Step)
    requires Inv(s) && Enabled(s, step) && OfLoad(step)
    ensures Inv(Next(s, step))
  {
    var t := Next(s, step);
    forall j: nat | j < |t.loads|
      ensures LoadOk(t, j)
    {
      LoadStep(s, step, j);
    }
    forall p: nat | p < |t.evaluated|
      ensures EvalOk(t, p)
    {
      EvalStep(s, step, p);
    }
  }

  lemma LoadStep(s: State, step: Step, j: nat)
    requires Inv(s) && Enabled(s, step) && OfLoad(step) && j < |s.loads|
    ensures |Next(s, step).loads| == |s.loads| && LoadOk(Next(s, step), j)
  {
    var t := Next(s, step);
    assert LoadOk(s, j) && LoadOk(s, step.i);
    if s.loads[j].after.Some? { assert Done(s, s.loads[j].after.value) ==> Done(t, s.loads[j].after.value); }
  }

  lemma EvalStep(s: State, step: Step, p: nat)
    requires Inv(s) && Enabled(s, step) && OfLoad(step) && p < |Next(s, step).evaluated|
    ensures EvalOk(Next(s, step), p)
  {
    var t := Next(s, step);
    assert LoadOk(s, step.i);
    if p < |s.evaluated| {
      assert EvalOk(s, p);
      assert t.evaluated[..p] == s.evaluated[..p];
      if step.Evaluate? {
        assert t.evaluated[p..] == s.evaluated[p..] + [step.i];
        assert s.evaluated[p] in s.evaluated;
        assert LoadOk(s, s.evaluated[p]);
      }
    } else {
      assert t.evaluated[..p] == s.evaluated;
      assert t.evaluated[p..] == [step.i];
    }
  }

  lemma InvNext(s: State, step: Step)
    requires Inv(s) && Enabled(s, step)
    ensures Inv(Next(s, step))
  {
    if OfLoad(step) {
      InvStatus(s, step);
    } else {
      var t := Next(s, step);
      if step.Import? {
        InvChain(s, step.kindOf, step.urls, None);
      } else {
        forall j: nat | j < |t.loads| ensures LoadOk(t, j) { assert LoadOk(s, j); }
        forall p: nat | p < |t.evaluated| ensures EvalOk(t, p) { assert EvalOk(s, p); }
      }
    }
  }

  /** Every state of every run satisfies the invariant. */
  lemma {:induction false} InvRun(s: State, steps: seq<Step>)
    requires Inv(s) && Legal(s, steps)
    ensures Inv(Run(s, steps))
    decreases |steps|
  {
    if steps != [] {
      InvNext(s, steps[0]);
      InvRun(Next(s, steps[0]), steps[1..]);
    }
  }

  // ---------------------------------------------------------------- what never changes back

  function Rank(st: Status): nat {
    match st
    case Waiting => 0
    case Fetching => 1
    case Evaluating => 2
    case Settled(_) => 3
  }

  /** From `s` to `t` loads are only added, keep what they wait for, and only move forward. */
  ghost predicate Later(s: State, t: State) {
    && |s.loads| <= |t.loads|
    && (forall i | 0 <= i < |s.loads| ::
          var a, b := s.loads[i], t.loads[i];
          && b.url == a.url && b.onBabel == a.onBabel && b.after == a.after
          && Rank(a.status) <= Rank(b.status) && (a.status.Settled? ==> b.status == a.status))
    && (s.babel == Ready ==> t.babel == Ready)
    && s.evaluated <= t.evaluated
  }

  lemma LaterTrans(s: State, t: State, u: State)
    requires Later(s, t) && Later(t, u)
    ensures Later(s, u)
  {
    forall i | 0 <= i < |s.loads|
      ensures var a, b := s.loads[i], u.loads[i];
              && b.url == a.url && b.onBabel == a.onBabel && b.after == a.after
              && Rank(a.status) <= Rank(b.status) && (a.status.Settled? ==> b.status == a.status)
    {
      assert t.loads[i].url == s.loads[i].url;
      assert u.loads[i].url == t.loads[i].url;
    }
  }

  lemma {:induction false} LaterChain(s: State, kindOf: string -> Kind, urls: seq<string>, prev: Option<nat>)
    ensures Later(s, Chain(s, kindOf, urls, prev))
    decreases |urls|
  {
    if urls != [] {
      var (t, i) := Request(s, kindOf(urls[0]), urls[0], prev);
      LaterChain(t, kindOf, urls[1..], Some(i));
      LaterTrans(s, t, Chain(t, kindOf, urls[1..], Some(i)));
    }
  }

  lemma LaterNext(s: State, step: Step)
    requires Enabled(s, step)
    ensures Later(s, Next(s, step))
  {
    if step.Import? { LaterChain(s, step.kindOf, step.urls, None); }
  }

  /** Over every run: no load is started twice, no settled load changes, no recorded wait changes. */
  lemma {:induction false} LaterRun(s: State, steps: seq<Step>)
    requires Legal(s, steps)
    ensures Later(s, Run(s, steps))
    decreases |steps|
  {
    if steps != [] {
      LaterNext(s, steps[0]);
      LaterRun(Next(s, steps[0]), steps[1..]);
      LaterTrans(s, Next(s, steps[0]), Run(s, steps));
    }
  }

  /**
   In every run each url has one load at most, and a module is evaluated at most once, only after the
   predecessor recorded at its first mention has settled, and behind it in the evaluation order.
   The predecessor is always an earlier load, so waits form no circle.
   */
  lemma LoaderSafety(steps: seq<Step>, i: nat)
    requires Legal(INITIAL, steps) && i < |Run(INITIAL, steps).loads|
    ensures var s := Run(INITIAL, steps);
            && (forall j | 0 <= j < |s.loads| && j != i :: s.loads[j].url != s.loads[i].url)
            && (s.loads[i].after.Some? ==> s.loads[i].after.value < i)
            && s.loads[i].url in s.cache
            && s.cache[s.loads[i].url] == (if s.loads[i].status.Settled? then Some(s.loads[i].status.ok) else None)
            && (i in s.evaluated ==> AfterDone(s, i) && multiset(s.evaluated)[i] == 1)
            && forall p, q | 0 <= p < q < |s.evaluated| ::
                 s.evaluated[p] < |s.loads| && s.loads[s.evaluated[p]].after != Some(s.evaluated[q])
  {
    InvRun(INITIAL, steps);
    var s := Run(INITIAL, steps);
    assert LoadOk(s, i);
    forall j | 0 <= j < |s.loads| && j != i ensures s.loads[j].url != s.loads[i].url { assert LoadOk(s, j); }
    forall p, q | 0 <= p < q < |s.evaluated|
      ensures s.evaluated[p] < |s.loads| && s.loads[s.evaluated[p]].after != Some(s.evaluated[q])
    {
      assert EvalOk(s, p);
      assert s.evaluated[p..][q - p] == s.evaluated[q];
    }
    if i in s.evaluated {
      var p :| 0 <= p < |s.evaluated| && s.evaluated[p] == i;
      forall a: nat, b: nat | a < b < |s.evaluated| ensures s.evaluated[a] != s.evaluated[b] {
        assert EvalOk(s, b);
        assert s.evaluated[..b][a] == s.evaluated[a];
      }
      DistinctCount(s.evaluated, i);
    }
  }

  lemma {:induction false} DistinctCount(xs: seq<nat>, x: nat)
    requires forall a, b | 0 <= a < b < |xs| :: xs[a] != xs[b]
    ensures multiset(xs)[x] == if x in xs then 1 else 0
  {
    if xs != [] {
      var n := |xs| - 1;
      assert xs == xs[..n] + [xs[n]];
      DistinctCount(xs[..n], x);
    }
  }

  // ---------------------------------------------------------------- results, from the steps

  /** The step by which load `i` ends well. */
  predicate Succeeds(step: Step, i: nat) {
    step == Finish(i, true)
  }

  /** The steps by which it ends badly: its code throws, its fetch fails, or Babel failed. */
  predicate Fails(step: Step, i: nat) {
    step == Finish(i, false) || step == FetchFails(i) || step == Reject(i)
  }

  predicate HasResult(s: State, i: nat, ok: bool) {
    i < |s.loads| && s.loads[i].status == Settled(ok)
  }

  lemma {:induction false} ChainHasResult(s: State, kindOf: string -> Kind, urls: seq<string>, prev: Option<nat>, i: nat, ok: bool)
    ensures HasResult(Chain(s, kindOf, urls, prev), i, ok) <==> HasResult(s, i, ok)
    decreases |urls|
  {
    if urls != [] {
      var (t, j) := Request(s, kindOf(urls[0]), urls[0], prev);
      ChainHasResult(t, kindOf, urls[1..], Some(j), i, ok);
    }
  }

  /** A load gets a result by such a step and by no other, and keeps the one it has. */
  lemma ResultNext(s: State, step: Step, i: nat, ok: bool)
    requires Enabled(s, step)
    ensures HasResult(Next(s, step), i, ok) <==>
            HasResult(s, i, ok) || (if ok then Succeeds(step, i) else Fails(step, i))
  {
    if step.Import? { ChainHasResult(s, step.kindOf, step.urls, None, i, ok); }
  }

  lemma {:induction false} ResultRun(s: State, steps: seq<Step>, i: nat, ok: bool)
    requires Legal(s, steps)
    ensures HasResult(Run(s, steps), i, ok) <==>
            HasResult(s, i, ok) || exists k | 0 <= k < |steps| :: if ok then Succeeds(steps[k], i) else Fails(steps[k], i)
    decreases |steps|
  {
    if steps != [] {
      ResultNext(s, steps[0], i, ok);
      ResultRun(Next(s, steps[0]), steps[1..], i, ok);
      EndsCons(steps, i, ok);
    }
  }

  lemma EndsCons(steps: seq<Step>, i: nat, ok: bool)
    requires steps != []
    ensures (exists k | 0 <= k < |steps| :: if ok then Succeeds(steps[k], i) else Fails(steps[k], i)) <==>
            || (if ok then Succeeds(steps[0], i) else Fails(steps[0], i))
            || exists k | 0 <= k < |steps[1..]| :: if ok then Succeeds(steps[1..][k], i) else Fails(steps[1..][k], i)
  {
    if k :| 0 <= k < |steps[1..]| && if ok then Succeeds(steps[1..][k], i) else Fails(steps[1..][k], i) {
      assert if ok then Succeeds(steps[k + 1], i) else Fails(steps[k + 1], i);
    }
    if k :| 0 <= k < |steps| && if ok then Succeeds(steps[k], i) else Fails(steps[k], i) {
      if k > 0 { assert if ok then Succeeds(steps[1..][k - 1], i) else Fails(steps[1..][k - 1], i); }
    }
  }

  /**
   In every run the cache says of a load that it went well exactly if it finished well, that it failed exactly
   if its code threw, its fetch failed or it gave up on Babel, and nothing as long as none of this happened.
   */
  lemma CacheExactly(steps: seq<Step>, i: nat)
    requires Legal(INITIAL, steps) && i < |Run(INITIAL, steps).loads|
    ensures var s := Run(INITIAL, steps);
            var good := exists k | 0 <= k < |steps| :: Succeeds(steps[k], i);
            var bad := exists k | 0 <= k < |steps| :: Fails(steps[k], i);
            && s.loads[i].url in s.cache
            && (s.cache[s.loads[i].url] == Some(true) <==> good)
            && (s.cache[s.loads[i].url] == Some(false) <==> bad)
            && (s.cache[s.loads[i].url] == None <==> !good && !bad)
  {
    InvRun(INITIAL, steps);
    var s := Run(INITIAL, steps);
    assert LoadOk(s, i);
    ResultRun(INITIAL, steps, i, true);
    ResultRun(INITIAL, steps, i, false);
  }

  lemma {:induction false} ChainBabel(s: State, kindOf: string -> Kind, urls: seq<string>, prev: Option<nat>)
    ensures var t := Chain(s, kindOf, urls, prev);
            && t.present == s.present && (t.babel == s.babel || (s.babel == Idle && t.babel == Loading))
    decreases |urls|
  {
    if urls != [] {
      var (t, j) := Request(s, kindOf(urls[0]), urls[0], prev);
      ChainBabel(t, kindOf, urls[1..], Some(j));
    }
  }

  /** The Babel script has loaded, or failed, exactly if a step says so. */
  lemma {:induction false} BabelExactly(s: State, steps: seq<Step>, ok: bool)
    requires Legal(s, steps)
    ensures Run(s, steps).babel == (if ok then Ready else Failed) <==>
            s.babel == (if ok then Ready else Failed) || BabelSettles(ok) in steps
    decreases |steps|
  {
    if steps != [] {
      var step := steps[0];
      if step.Import? { ChainBabel(s, step.kindOf, step.urls, None); }
      BabelExactly(Next(s, step), steps[1..], ok);
      assert steps == [step] + steps[1..];
    }
  }

  /** Whether Babel is on the page is what was said last. */
  lemma PresentExactly(s: State, step: Step)
    requires Enabled(s, step)
    ensures Next(s, step).present == if step.BabelPresent? then step.on else s.present
  {
    if step.Import? { ChainBabel(s, step.kindOf, step.urls, None); }
  }

  /** The modules that the steps evaluate, in order. */
  function Evaluations(steps: seq<Step>): seq<nat> {
    if steps == [] then []
    else if steps[0].Evaluate? then [steps[0].i] + Evaluations(steps[1..])
    else Evaluations(steps[1..])
  }

  lemma {:induction false} ChainSameEvaluated(s: State, kindOf: string -> Kind, urls: seq<string>, prev: Option<nat>)
    ensures Chain(s, kindOf, urls, prev).evaluated == s.evaluated
    decreases |urls|
  {
    if urls != [] {
      var (t, j) := Request(s, kindOf(urls[0]), urls[0], prev);
      ChainSameEvaluated(t, kindOf, urls[1..], Some(j));
    }
  }

  /** The evaluation order is that of the evaluating steps. */
  lemma {:induction false} EvaluatedExactly(s: State, steps: seq<Step>)
    requires Legal(s, steps)
    ensures Run(s, steps).evaluated == s.evaluated + Evaluations(steps)
    decreases |steps|
  {
    if steps == [] {
      assert s.evaluated + [] == s.evaluated;
    } else {
      var step, t := steps[0], Next(s, steps[0]);
      if step.Import? { ChainSameEvaluated(s, step.kindOf, step.urls, None); }
      EvaluatedExactly(t, steps[1..]);
      if step.Evaluate? { assert s.evaluated + [step.i] + Evaluations(steps[1..]) == s.evaluated + ([step.i] + Evaluations(steps[1..])); }
    }
  }

  // ---------------------------------------------------------------- progress

  ghost predicate AllDone(s: State) {
    forall i | 0 <= i < |s.loads| :: s.loads[i].status.Settled?
  }

  /** Reactions left until all loads have settled. */
  function Work(loads: seq<Load>): nat {
    if loads == [] then 0 else Work(loads[..|loads| - 1]) + 3 - Rank(loads[|loads| - 1].status)
  }

  lemma {:induction false} WorkUpdate(loads: seq<Load>, i: nat, st: Status)
    requires i < |loads|
    ensures Work(loads[i := loads[i].(status := st)]) == Work(loads) + Rank(loads[i].status) - Rank(st)
    decreases |loads|
  {
    var n := |loads| - 1;
    var after := loads[i := loads[i].(status := st)];
    if i == n {
      assert after[..n] == loads[..n];
    } else {
      assert after[..n] == loads[..n][i := loads[i].(status := st)];
      WorkUpdate(loads[..n], i, st);
    }
  }

  lemma {:induction false} WorkZero(loads: seq<Load>)
    ensures Work(loads) == 0 <==> forall i | 0 <= i < |loads| :: loads[i].status.Settled?
    decreases |loads|
  {
    if loads != [] {
      var n := |loads| - 1;
      WorkZero(loads[..n]);
      assert loads == loads[..n] + [loads[n]];
    }
  }

  /** The reaction that an unsettled load can have next, once its waits are over. */
  function Reaction(s: State, i: nat): Step
    requires i < |s.loads|
  {
    match s.loads[i].status
    case Waiting => if s.loads[i].onBabel && s.babel == Failed then Reject(i) else Begin(i)
    case Fetching => FetchFails(i)
    case Evaluating => Finish(i, false)
    case Settled(_) => Finish(i, false)
  }

  lemma FirstCanReact(s: State, i: nat)
    requires Inv(s) && s.babel != Loading
    requires i < |s.loads| && !Done(s, i) && forall j | 0 <= j < i :: Done(s, j)
    ensures Enabled(s, Reaction(s, i)) && OfLoad(Reaction(s, i))
  {
    assert LoadOk(s, i);
  }

  lemma {:induction false} FirstUndone(s: State, i: nat) returns (j: nat)
    requires i < |s.loads| && !Done(s, i)
    ensures j < |s.loads| && !Done(s, j) && forall k | 0 <= k < j :: Done(s, k)
  {
    j := 0;
    while Done(s, j)
      invariant j <= i
      invariant forall k | 0 <= k < j :: Done(s, k)
      decreases i - j
    {
      j := j + 1;
    }
  }

  /** No deadlock: once Babel is decided, some load can react exactly as long as one is unsettled. */
  lemma NoDeadlock(s: State)
    requires Inv(s) && s.babel != Loading
    ensures !AllDone(s) <==> exists step :: OfLoad(step) && Enabled(s, step)
  {
    if !AllDone(s) {
      var i :| 0 <= i < |s.loads| && !s.loads[i].status.Settled?;
      var j := FirstUndone(s, i);
      FirstCanReact(s, j);
    }
  }

  /** And each reaction uses up some of the work, so runs of reactions end, with all loads settled. */
  lemma {:induction false} ReactionsEnd(s: State, steps: seq<Step>)
    requires Inv(s) && Legal(s, steps) && forall i | 0 <= i < |steps| :: OfLoad(steps[i])
    ensures |steps| + Work(Run(s, steps).loads) <= Work(s.loads)
    ensures Work(Run(s, steps).loads) == 0 <==> AllDone(Run(s, steps))
    ensures s.babel != Loading && (forall step | OfLoad(step) :: !Enabled(Run(s, steps), step)) ==> AllDone(Run(s, steps))
    decreases |steps|
  {
    if steps == [] {
      WorkZero(s.loads);
      if s.babel != Loading { NoDeadlock(s); }
    } else {
      var t := Next(s, steps[0]);
      InvNext(s, steps[0]);
      ReactionWork(s, steps[0]);
      forall i | 0 <= i < |steps[1..]| ensures OfLoad(steps[1..][i]) { assert OfLoad(steps[i + 1]); }
      ReactionsEnd(t, steps[1..]);
    }
  }

  lemma ReactionWork(s: State, step: Step)
    requires Enabled(s, step) && OfLoad(step)
    ensures Work(Next(s, step).loads) < Work(s.loads) && Next(s, step).babel == s.babel
  {
    WorkUpdate(s.loads, step.i, Next(s, step).loads[step.i].status);
  }
}
