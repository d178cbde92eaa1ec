/**
 The logic instance behind a mounted component: how it is built, swapped when the registry
 has a new class, and told about mounting, updating and unmounting. React is the environment:
 it decides when to render and when to call the hooks.
 */
module Lifecycle {
  import opened Prelude

  // ---------------------------------------------------------------- values and props

  /** A property value as far as `===` tells values apart. */
  datatype Value = Undef | NaN | Val(n: int)

  type Props = map<string, Value>
  type State = map<string, Value>

  /** JavaScript's `===`. */
  predicate StrictEq(a: Value, b: Value) {
    a == b && a != NaN
  }

  function Get(p: Props, k: string): Value {
    if k in p then p[k] else Undef
  }

  /** The props the author sees: internal wiring stripped. */
  function UserProps(p: Props): Props {
    p - {"__name", "__hintSize", "__tplId", "__hostStyle"}
  }

  function OwnKeys(p: Props): set<string> {
    p.Keys - {"children"}
  }

  predicate ShallowEqual(a: Props, b: Option<Props>) {
    && b.Some?
    && |OwnKeys(a)| == |OwnKeys(b.value)|
    && ValuesMatch(a, b.value)
  }

  predicate ValuesMatch(a: Props, b: Props) {
    forall k | k in OwnKeys(a) :: StrictEq(a[k], Get(b, k))
  }

  /** No compared prop is NaN, the one value that differs from itself. */
  predicate SelfEqual(p: Props) {
    forall k | k in OwnKeys(p) :: p[k] != NaN
  }

  lemma ShallowEqualToSelf(p: Props)
    ensures ShallowEqual(p, Some(p)) <==> SelfEqual(p)
  {
    if ShallowEqual(p, Some(p)) {
      assert forall k | k in OwnKeys(p) :: StrictEq(p[k], Get(p, k));
    }
  }

  /** Compared keys that only `a` has. */
  function OnlyIn(a: Props, b: Props): set<string> {
    OwnKeys(a) - OwnKeys(b)
  }

  predicate Agrees(a: Props, b: Props) {
    && (forall k | k in OwnKeys(a) && k in OwnKeys(b) :: a[k] == b[k])
    && forall k | k in OnlyIn(a, b) :: a[k] == Undef
  }

  /** `b` agrees with `a` but for undefined keys of `a` that have given way to as many other keys with any values. */
  predicate Traded(a: Props, b: Props) {
    Agrees(a, b) && |OnlyIn(a, b)| == |OnlyIn(b, a)|
  }

  /** What the comparison decides, on all props: no NaN, and nothing but undefined keys traded for others. */
  lemma ShallowEqualExact(a: Props, b: Props)
    ensures ShallowEqual(a, Some(b)) <==> SelfEqual(a) && Traded(a, b)
  {
    SizesOfDifferences(OwnKeys(a), OwnKeys(b));
    ValuesMatchExactly(a, b);
  }

  lemma ValuesMatchExactly(a: Props, b: Props)
    ensures ValuesMatch(a, b) <==> SelfEqual(a) && Agrees(a, b)
  {
    assert forall k | k in OwnKeys(a) :: k in b <==> k in OwnKeys(b);
    assert forall k | k in OwnKeys(a) :: k in OnlyIn(a, b) <==> k !in b;
    if ValuesMatch(a, b) {
      assert forall k | k in OwnKeys(a) :: StrictEq(a[k], Get(b, k));
    }
  }

  lemma SizesOfDifferences(a: set<string>, b: set<string>)
    ensures |a| == |b| <==> |a - b| == |b - a|
  {
    assert a == (a - b) + a * b && b == (b - a) + a * b;
  }

  /** The compared props really are the same: same keys, same values. */
  predicate SameProps(a: Props, b: Props) {
    a - {"children"} == b - {"children"}
  }

  lemma SamePropsByKey(a: Props, b: Props)
    ensures SameProps(a, b) <==> OwnKeys(a) == OwnKeys(b) && forall k | k in OwnKeys(a) && k in OwnKeys(b) :: a[k] == b[k]
  {
    var a', b' := a - {"children"}, b - {"children"};
    assert a'.Keys == OwnKeys(a) && b'.Keys == OwnKeys(b);
    assert forall k | k in a' :: a'[k] == a[k];
    assert forall k | k in b' :: b'[k] == b[k];
  }

  /** A change behind which the comparison cannot look: an undefined key of `a` was traded. */
  predicate Masked(a: Props, b: Props) {
    Traded(a, b) && exists k | k in OwnKeys(a) && a[k] == Undef :: k !in b
  }

  /** What is traded is the same, or changed and masked, but not both. */
  lemma TradedExactly(a: Props, b: Props)
    ensures Traded(a, b) && !Masked(a, b) <==> SameProps(a, b)
  {
    SamePropsByKey(a, b);
    if Traded(a, b) && forall k | k in OwnKeys(a) && a[k] == Undef :: k in b {
      assert OnlyIn(a, b) == {};
      assert OnlyIn(b, a) == {};
    }
    if SameProps(a, b) {
      assert OnlyIn(a, b) == {} && OnlyIn(b, a) == {};
    }
  }

  /**
   So the comparison takes a change for none exactly if an undefined key is gone, and sees a change
   where there is none exactly if a value is NaN.
   */
  lemma ShallowEqualErrsExactly(a: Props, b: Props)
    ensures ShallowEqual(a, Some(b)) && !SameProps(a, b) <==>
            SelfEqual(a) && Masked(a, b)
    ensures !ShallowEqual(a, Some(b)) && SameProps(a, b) <==> !SelfEqual(a) && SameProps(a, b)
  {
    ShallowEqualExact(a, b);
    TradedExactly(a, b);
  }

  /** A missed change: an undefined prop went away and another one came, with a value. */
  lemma MissedChangeExample(n: int)
    ensures ShallowEqual(map["x" := Undef], Some(map["y" := Val(n)]))
  {
    var a: Props, b: Props := map["x" := Undef], map["y" := Val(n)];
    assert OwnKeys(a) == {"x"} && OwnKeys(b) == {"y"};
  }

  // ---------------------------------------------------------------- the host and its logic

  /** Logic classes by identity; `BASE` is StreamableLogic, whose constructor cannot fail. */
  type ClassId = nat
  const BASE: ClassId := 0

  /** The part of a registry entry that the host reads. */
  datatype Entry = Entry(logic: Option<ClassId>, ver: nat, hasTpl: bool)

  /** What running a constructor yields: its initial state, or the text of what it threw. */
  datatype Built = Built(state: State) | Threw(error: string)

  datatype Instance = Instance(id: nat, cls: ClassId, props: Props, state: State)

  /** Hook calls on logic instances, in order. */
  datatype Hook = DidMount(id: nat) | DidUpdate(id: nat) | WillUnmount(id: nat)

  datatype Host = Host(
    props: Props,
    logic: Instance,
    needsDidMount: bool,
    failedLogic: Option<ClassId>,
    failedProps: Option<Props>,
    failedVer: int,
    ctorError: Option<string>,
    err: bool,
    built: nat,
    hooks: seq<Hook>)

  /** `{...initial, ...prev}`. */
  function Adopt(initial: State, prev: Option<State>): State {
    if prev.None? then initial else initial + prev.value
  }

  /** `__makeLogic`: build the class, or fall back to the base class and remember the failure. */
  function MakeLogic(h: Host, cls: Option<ClassId>, prev: Option<State>, ver: nat, outcome: Built): Host {
    var l := if cls.None? then BASE else cls.value;
    var p := UserProps(h.props);
    match if l == BASE then Built(map[]) else outcome
    case Built(s) =>
      h.(logic := Instance(h.built, l, p, Adopt(s, prev)),
         failedLogic := None, failedProps := None, ctorError := None,
         built := h.built + 1)
    case Threw(e) =>
      h.(logic := Instance(h.built, BASE, p, Adopt(map[], prev)),
         failedLogic := cls, failedProps := Some(p), failedVer := ver, ctorError := Some(e),
         built := h.built + 1)
  }

  /** A host before its first construction; the instance is a placeholder without meaning. */
  function Blank(props: Props): Host {
    Host(props, Instance(0, BASE, map[], map[]), false, None, None, -1, None, false, 0, [])
  }

  function Construct(entry: Entry, props: Props, outcome: Built): Host {
    MakeLogic(Blank(props), entry.logic, None, entry.ver, outcome)
  }

  /** The guard of `__reconcileLogic`: nothing to swap. */
  predicate Settled(h: Host, entry: Entry) {
    || entry.logic == Some(h.logic.cls)
    || (entry.logic.None? && h.logic.cls == BASE)
    || (entry.logic == h.failedLogic && entry.ver == h.failedVer && ShallowEqual(UserProps(h.props), h.failedProps))
  }

  function Reconcile(h: Host, entry: Entry, outcome: Built): Host {
    if Settled(h, entry) then h
    else
      var h1 := if h.needsDidMount then h else h.(hooks := h.hooks + [WillUnmount(h.logic.id)]);
      MakeLogic(h1, entry.logic, Some(h.logic.state), entry.ver, outcome).(needsDidMount := true)
  }

  /** A render reaches the swap only outside an import cycle and outside the error state. */
  predicate Swaps(h: Host, entry: Entry, cyclic: bool) {
    !cyclic && !h.err && !Settled(h, entry)
  }

  function Render(h: Host, entry: Entry, cyclic: bool, outcome: Built): Host {
    if cyclic || h.err then h
    else
      var h1 := Reconcile(h, entry, outcome);
      if entry.hasTpl then h1.(logic := h1.logic.(props := UserProps(h.props))) else h1
  }

  function OnDidMount(h: Host): Host {
    h.(hooks := h.hooks + [DidMount(h.logic.id)])
  }

  function OnDidUpdate(h: Host, entry: Entry): Host {
    var h1 := h.(logic := h.logic.(props := UserProps(h.props)));
    if !h.needsDidMount then h1.(hooks := h.hooks + [DidUpdate(h.logic.id)])
    else if h.err || !entry.hasTpl then h1
    else h1.(needsDidMount := false, hooks := h.hooks + [DidMount(h.logic.id)])
  }

  function OnWillUnmount(h: Host): Host {
    if h.needsDidMount then h else h.(hooks := h.hooks + [WillUnmount(h.logic.id)])
  }

  /** `setState` with an updater; an object patch is the constant updater. */
  function SetLogicState(h: Host, update: State -> State): Host {
    var patch := update(h.logic.state);
    h.(logic := h.logic.(state := h.logic.state + patch))
  }

  // ---------------------------------------------------------------- runs

  datatype Phase = Preparing | Mounted | Gone

  datatype System = System(phase: Phase, entry: Entry, host: Host)

  /**
   Everything that can happen around a host. `Rendering` may occur any number of times before
   a commit, as React may discard renders.
   */
  datatype Step =
    | Registry(entry: Entry)
    | Error(on: bool)
    | Setting(update: State -> State)
    | Rendering(props: Props, cyclic: bool, outcome: Built)
    | Mounting
    | Updating
    | Unmounting

  predicate Enabled(s: System, step: Step) {
    match step
    case Registry(_) | Error(_) | Setting(_) => true
    case Rendering(_, _, _) => s.phase != Gone
    case Mounting => s.phase == Preparing
    case Updating | Unmounting => s.phase == Mounted
  }

  /** Registry, errors and `setState` come at any time; hosts render until they are gone, mount once and leave once. */
  lemma Freedom(s: System, e: Entry, on: bool, u: State -> State, p: Props, cyclic: bool, o: Built)
    ensures Enabled(s, Registry(e)) && Enabled(s, Error(on)) && Enabled(s, Setting(u))
    ensures s.phase != Gone ==> Enabled(s, Rendering(p, cyclic, o)) && (Enabled(s, Mounting) || Enabled(s, Unmounting))
    ensures s.phase == Mounted ==> Enabled(s, Updating)
  {
  }

  function Next(s: System, step: Step): System {
    match step
    case Registry(e) => s.(entry := e)
    case Error(on) => s.(host := s.host.(err := on))
    case Setting(u) => s.(host := SetLogicState(s.host, u))
    case Rendering(p, cyclic, o) => s.(host := Render(s.host.(props := p), s.entry, cyclic, o))
    case Mounting => System(Mounted, s.entry, OnDidMount(s.host))
    case Updating => s.(host := OnDidUpdate(s.host, s.entry))
    case Unmounting => System(Gone, s.entry, OnWillUnmount(s.host))
  }

  /** Only the registry changes the entry, only an error the error state, and mounting and leaving the phase. */
  lemma WhoChangesWhat(s: System, step: Step)
    ensures Next(s, step).entry == if step.Registry? then step.entry else s.entry
    ensures Next(s, step).host.err == if step.Error? then step.on else s.host.err
    ensures Next(s, step).phase == if step.Mounting? then Mounted else if step.Unmounting? then Gone else s.phase
    ensures step.Registry? || step.Error? ==> Next(s, step).host == s.host.(err := Next(s, step).host.err)
  {
  }

  function Start(entry: Entry, props: Props, outcome: Built): System {
    System(Preparing, entry, Construct(entry, props, outcome))
  }

  function Run(s: System, steps: seq<Step>): System
    decreases |steps|
  {
    if steps == [] then s else Run(Next(s, steps[0]), steps[1..])
  }

  predicate Legal(s: System, steps: seq<Step>)
    decreases |steps|
  {
    steps == [] || (Enabled(s, steps[0]) && Legal(Next(s, steps[0]), steps[1..]))
  }

  /** This step swaps the logic of a host that is not mounted yet. */
  predicate SwapsEarly(s: System, step: Step) {
    s.phase == Preparing && step.Rendering? && Swaps(s.host.(props := step.props), s.entry, step.cyclic)
  }

  predicate NoEarlySwap(s: System, steps: seq<Step>)
    decreases |steps|
  {
    steps == [] || (!SwapsEarly(s, steps[0]) && NoEarlySwap(Next(s, steps[0]), steps[1..]))
  }

  // ---------------------------------------------------------------- balance of the hooks

  /** One more hook call in place: mount once, update while mounted, unmount once and after mount. */
  predicate Fits(log: seq<Hook>, e: Hook) {
    match e
    case DidMount(x) => DidMount(x) !in log
    case DidUpdate(x) => DidMount(x) in log && WillUnmount(x) !in log
    case WillUnmount(x) => DidMount(x) in log && WillUnmount(x) !in log
  }

  ghost predicate Balanced(log: seq<Hook>) {
    forall i | 0 <= i < |log| :: Fits(log[..i], log[i])
  }

  /** Every instance that was mounted has been unmounted. */
  ghost predicate Released(log: seq<Hook>) {
    forall x: nat :: DidMount(x) in log ==> WillUnmount(x) in log
  }

  lemma BalancedSnoc(log: seq<Hook>, e: Hook)
    ensures Balanced(log + [e]) <==> Balanced(log) && Fits(log, e)
  {
    var l := log + [e];
    forall i | 0 <= i < |log| ensures l[..i] == log[..i] {}
    assert l[..|log|] == log;
    if Balanced(l) {
      assert Fits(l[..|log|], l[|log|]);
      forall i | 0 <= i < |log| ensures Fits(log[..i], log[i]) { assert Fits(l[..i], l[i]); }
    }
  }

  /**
   The invariant, for the current instance `id` of `built` instances so far: `needs` holds exactly
   while it is not mounted, and all others are through: unmounted, or never mounted.
   */
  ghost predicate InvOf(phase: Phase, log: seq<Hook>, id: nat, built: nat, needs: bool) {
    && Balanced(log) && id < built
    && (forall x: nat :: DidMount(x) in log ==> x < built)
    && (forall x: nat :: x != id && DidMount(x) in log ==> WillUnmount(x) in log)
    && match phase
       case Preparing => log == [] && !needs
       case Mounted => (needs <==> DidMount(id) !in log) && WillUnmount(id) !in log
       case Gone => Released(log)
  }

  ghost predicate Inv(s: System) {
    InvOf(s.phase, s.host.hooks, s.host.logic.id, s.host.built, s.host.needsDidMount)
  }

  lemma UnmountsFollowMounts(log: seq<Hook>, x: nat)
    requires Balanced(log) && WillUnmount(x) in log
    ensures DidMount(x) in log
  {
    var i :| 0 <= i < |log| && log[i] == WillUnmount(x);
    assert Fits(log[..i], log[i]);
  }

  lemma InvNext(s: System, step: Step)
    requires Inv(s) && Enabled(s, step) && !SwapsEarly(s, step)
    ensures Inv(Next(s, step))
  {
    var h := s.host;
    match step
    case Registry(_) =>
    case Error(_) =>
    case Setting(_) =>
    case Rendering(p, cyclic, o) => InvRender(s, p, cyclic, o);
    case Mounting => BalancedSnoc(h.hooks, DidMount(h.logic.id));
    case Updating =>
      BalancedSnoc(h.hooks, DidMount(h.logic.id));
      BalancedSnoc(h.hooks, DidUpdate(h.logic.id));
    case Unmounting =>
      BalancedSnoc(h.hooks, WillUnmount(h.logic.id));
  }

  lemma InvRender(s: System, p: Props, cyclic: bool, o: Built)
    requires Inv(s) && s.phase != Gone
    requires s.phase == Preparing ==> !Swaps(s.host.(props := p), s.entry, cyclic)
    ensures Inv(Next(s, Rendering(p, cyclic, o)))
  {
    var h := s.host.(props := p);
    var h' := Render(h, s.entry, cyclic, o);
    if Swaps(h, s.entry, cyclic) {
      SwapEffect(h, s.entry, o);
      InvSwap(s, h'.hooks);
    } else {
      assert h'.hooks == h.hooks && h'.logic.id == h.logic.id && h'.built == h.built && h'.needsDidMount == h.needsDidMount;
    }
  }

  lemma SwapEffect(h: Host, entry: Entry, o: Built)
    requires Swaps(h, entry, false)
    ensures var h' := Render(h, entry, false, o);
            && h'.logic.id == h.built && h'.built == h.built + 1 && h'.needsDidMount
            && h'.hooks == if h.needsDidMount then h.hooks else h.hooks + [WillUnmount(h.logic.id)]
  {
  }

  /** After a swap the old instance is through and the new one has seen no hook. */
  lemma InvSwap(s: System, hooks: seq<Hook>)
    requires Inv(s) && s.phase == Mounted
    requires hooks == if s.host.needsDidMount then s.host.hooks else s.host.hooks + [WillUnmount(s.host.logic.id)]
    ensures InvOf(Mounted, hooks, s.host.built, s.host.built + 1, true)
  {
    var log := s.host.hooks;
    BalancedSnoc(log, WillUnmount(s.host.logic.id));
    if WillUnmount(s.host.built) in log { UnmountsFollowMounts(log, s.host.built); }
  }

  lemma {:induction false} InvRun(s: System, steps: seq<Step>)
    requires Inv(s) && Legal(s, steps) && NoEarlySwap(s, steps)
    ensures Inv(Run(s, steps))
    decreases |steps|
  {
    if steps != [] {
      InvNext(s, steps[0]);
      InvRun(Next(s, steps[0]), steps[1..]);
    }
  }

  lemma {:induction false} UnbalancedForever(s: System, steps: seq<Step>)
    requires !Balanced(s.host.hooks)
    ensures !Balanced(Run(s, steps).host.hooks)
    decreases |steps|
  {
    if steps != [] {
      UnbalancedNext(s, steps[0]);
      UnbalancedForever(Next(s, steps[0]), steps[1..]);
    }
  }

  lemma UnbalancedNext(s: System, step: Step)
    requires !Balanced(s.host.hooks)
    ensures !Balanced(Next(s, step).host.hooks)
  {
    var log, id := s.host.hooks, s.host.logic.id;
    BalancedSnoc(log, DidMount(id));
    BalancedSnoc(log, DidUpdate(id));
    BalancedSnoc(log, WillUnmount(id));
  }

  lemma LoneUnmount(id: nat)
    ensures !Balanced([] + [WillUnmount(id)])
  {
    BalancedSnoc([], WillUnmount(id));
  }

  /** It tells an instance to unmount that was never mounted. */
  lemma EarlySwapUnbalances(s: System, step: Step)
    requires Inv(s) && SwapsEarly(s, step)
    ensures !Balanced(Next(s, step).host.hooks)
  {
    SwapEffect(s.host.(props := step.props), s.entry, step.outcome);
    LoneUnmount(s.host.logic.id);
  }

  lemma {:induction false} EarlySwapBreaks(s: System, steps: seq<Step>)
    requires Inv(s) && Legal(s, steps) && !NoEarlySwap(s, steps)
    ensures !Balanced(Run(s, steps).host.hooks)
    decreases |steps|
  {
    if SwapsEarly(s, steps[0]) {
      EarlySwapUnbalances(s, steps[0]);
      UnbalancedForever(Next(s, steps[0]), steps[1..]);
    } else {
      InvNext(s, steps[0]);
      EarlySwapBreaks(Next(s, steps[0]), steps[1..]);
    }
  }

  /**
   Over every run of a host, the hook calls of every logic instance are in order exactly when
   no render before the mount swaps the logic; and then, once the host is gone, every
   mounted instance has been unmounted.
   */
  lemma HooksBalancedExactly(entry: Entry, props: Props, outcome: Built, steps: seq<Step>)
    requires Legal(Start(entry, props, outcome), steps)
    ensures var s := Start(entry, props, outcome);
            var t := Run(s, steps);
            && (Balanced(t.host.hooks) <==> NoEarlySwap(s, steps))
            && (NoEarlySwap(s, steps) && t.phase == Gone ==> Released(t.host.hooks))
            && (NoEarlySwap(s, steps) && t.phase == Mounted ==>
                (t.host.needsDidMount <==> DidMount(t.host.logic.id) !in t.host.hooks))
  {
    var s := Start(entry, props, outcome);
    if NoEarlySwap(s, steps) { InvRun(s, steps); } else { EarlySwapBreaks(s, steps); }
  }

  /**
   The swap that breaks the order, seen by a caller: construction and first render back to back
   leave the logic alone exactly when the constructor succeeds or no compared prop is NaN.
   */
  lemma FirstRenderKeepsLogic(entry: Entry, props: Props, outcome: Built)
    ensures var failed := entry.logic.Some? && entry.logic.value != BASE && outcome.Threw?;
            Swaps(Construct(entry, props, outcome), entry, false) <==> failed && !SelfEqual(UserProps(props))
  {
    ShallowEqualToSelf(UserProps(props));
  }

  /** A render outside cycle and error state builds, unless the guard finds nothing to swap. */
  predicate Builds(s: System, step: Step) {
    && step.Rendering? && !step.cyclic && !s.host.err
    && !Settled(s.host.(props := step.props), s.entry)
  }

  /** The calls a step makes on logic instances, and on which. */
  function CallsOf(s: System, step: Step): seq<Hook> {
    var id, waiting := s.host.logic.id, s.host.needsDidMount;
    match step
    case Mounting => [DidMount(id)]
    case Updating =>
      if !waiting then [DidUpdate(id)] else if s.host.err || !s.entry.hasTpl then [] else [DidMount(id)]
    case Unmounting => if waiting then [] else [WillUnmount(id)]
    case Rendering(_, _, _) => if Builds(s, step) && !waiting then [WillUnmount(id)] else []
    case _ => []
  }

  function CallsOfRun(s: System, steps: seq<Step>): seq<Hook>
    decreases |steps|
  {
    if steps == [] then [] else CallsOf(s, steps[0]) + CallsOfRun(Next(s, steps[0]), steps[1..])
  }

  lemma CallsNext(s: System, step: Step)
    ensures Next(s, step).host.hooks == s.host.hooks + CallsOf(s, step)
  {
    assert s.host.hooks + [] == s.host.hooks;
  }

  /** The log of hook calls is that of the steps, in order. */
  lemma {:induction false} HooksExactly(s: System, steps: seq<Step>)
    ensures Run(s, steps).host.hooks == s.host.hooks + CallsOfRun(s, steps)
    decreases |steps|
  {
    if steps == [] {
      assert s.host.hooks + [] == s.host.hooks;
    } else {
      CallsNext(s, steps[0]);
      HooksExactly(Next(s, steps[0]), steps[1..]);
      assert s.host.hooks + CallsOf(s, steps[0]) + CallsOfRun(Next(s, steps[0]), steps[1..])
          == s.host.hooks + CallsOfRun(s, steps);
    }
  }

  /** The names that author code does not see. */
  predicate IsWiring(k: string) {
    k == "__name" || k == "__hintSize" || k == "__tplId" || k == "__hostStyle"
  }

  /** Author code sees every other prop, unchanged. */
  lemma UserPropsExactly(p: Props, k: string)
    ensures k in UserProps(p) <==> k in p && !IsWiring(k)
    ensures k in UserProps(p) ==> UserProps(p)[k] == p[k]
  {
  }

  /** A new instance is built with the props of the render, and whoever renders or is told of an update has them. */
  lemma PropsReachLogic(s: System, step: Step)
    ensures Builds(s, step) ==> Next(s, step).host.logic.props == UserProps(step.props)
    ensures step.Rendering? && !step.cyclic && !s.host.err && s.entry.hasTpl ==>
              Next(s, step).host.logic.props == UserProps(step.props)
    ensures step.Updating? ==> Next(s, step).host.logic.props == UserProps(s.host.props)
    ensures step.Rendering? ==> Next(s, step).host.props == step.props
    ensures !step.Rendering? && !step.Updating? ==>
              Next(s, step).host.logic.props == s.host.logic.props && Next(s, step).host.props == s.host.props
  {
  }

  /** Once mounted there is no more early swap. */
  lemma {:induction false} NoEarlySwapLater(s: System, steps: seq<Step>)
    requires s.phase != Preparing && Legal(s, steps)
    ensures NoEarlySwap(s, steps)
    decreases |steps|
  {
    if steps != [] { NoEarlySwapLater(Next(s, steps[0]), steps[1..]); }
  }

  /**
   For a host that is constructed, rendered once and mounted, and then goes through anything: its
   hooks are balanced exactly unless the constructor fails on props that hold a NaN.
   */
  lemma MountedHostBalanced(entry: Entry, props: Props, outcome: Built, cyclic: bool, o: Built, rest: seq<Step>)
    requires Legal(Start(entry, props, outcome), [Rendering(props, cyclic, o), Mounting] + rest)
    ensures var failed := entry.logic.Some? && entry.logic.value != BASE && outcome.Threw?;
            Balanced(Run(Start(entry, props, outcome), [Rendering(props, cyclic, o), Mounting] + rest).host.hooks) <==>
            cyclic || !failed || SelfEqual(UserProps(props))
  {
    var s := Start(entry, props, outcome);
    var r := Rendering(props, cyclic, o);
    var steps := [r, Mounting] + rest;
    HooksBalancedExactly(entry, props, outcome, steps);
    FirstRenderKeepsLogic(entry, props, outcome);
    assert s.host.(props := props) == s.host;
    assert SwapsEarly(s, r) <==> Swaps(s.host, entry, cyclic);
    assert steps[1..] == [Mounting] + rest && steps[1..][1..] == rest;
    var t := Next(Next(s, r), Mounting);
    NoEarlySwapLater(t, rest);
    assert NoEarlySwap(Next(s, r), steps[1..]);
  }

  /** A commit mounts an instance that is not mounted yet exactly if there is no error and there is a template. */
  lemma CommitMounts(s: System)
    requires Inv(s) && s.phase == Mounted
    ensures var h, h' := s.host, Next(s, Updating).host;
            && h'.logic.id == h.logic.id && WillUnmount(h.logic.id) !in h'.hooks
            && (DidMount(h.logic.id) in h'.hooks <==> DidMount(h.logic.id) in h.hooks || (!h.err && s.entry.hasTpl))
            && (h'.needsDidMount <==> DidMount(h.logic.id) !in h'.hooks)
  {
    InvNext(s, Updating);
  }

  /** In a balanced log each instance is mounted at most once and unmounted at most once. */
  lemma BalancedCounts(log: seq<Hook>, x: nat)
    requires Balanced(log)
    ensures multiset(log)[DidMount(x)] <= 1 && multiset(log)[WillUnmount(x)] <= multiset(log)[DidMount(x)]
    ensures Released(log) ==> multiset(log)[WillUnmount(x)] == multiset(log)[DidMount(x)]
  {
    BalancedCount(log, x);
    if DidMount(x) in log && WillUnmount(x) in log {
      assert multiset(log)[DidMount(x)] >= 1 && multiset(log)[WillUnmount(x)] >= 1;
    }
  }

  lemma {:induction false} BalancedCount(log: seq<Hook>, x: nat)
    requires Balanced(log)
    ensures multiset(log)[DidMount(x)] <= 1 && multiset(log)[WillUnmount(x)] <= multiset(log)[DidMount(x)]
    decreases |log|
  {
    if log != [] {
      var n := |log| - 1;
      assert log == log[..n] + [log[n]];
      BalancedSnoc(log[..n], log[n]);
      BalancedCount(log[..n], x);
      assert multiset(log) == multiset(log[..n]) + multiset{log[n]};
    }
  }

  // ---------------------------------------------------------------- state across swaps

  /** What happened to the logic state: a constructor's initial state, or a `setState` patch. */
  datatype Write = Initial(m: State) | Patch(p: State)

  /** The value a history of writes gives to a key: the last patch with it, or else the first initial state with it. */
  function Remembered(ws: seq<Write>, k: string): Option<Value> {
    var p := LastPatch(ws, k);
    if p.Some? then p else FirstInitial(ws, k)
  }

  function LastPatch(ws: seq<Write>, k: string): Option<Value> {
    if ws == [] then None
    else
      var w := ws[|ws| - 1];
      if w.Patch? && k in w.p then Some(w.p[k]) else LastPatch(ws[..|ws| - 1], k)
  }

  function FirstInitial(ws: seq<Write>, k: string): Option<Value> {
    if ws == [] then None
    else if ws[0].Initial? && k in ws[0].m then Some(ws[0].m[k])
    else FirstInitial(ws[1..], k)
  }

  function Lookup(m: State, k: string): Option<Value> {
    if k in m then Some(m[k]) else None
  }

  lemma {:induction false} FirstInitialSnoc(ws: seq<Write>, w: Write, k: string)
    ensures FirstInitial(ws + [w], k) ==
            if FirstInitial(ws, k).Some? then FirstInitial(ws, k)
            else if w.Initial? then Lookup(w.m, k) else None
  {
    if ws == [] {
      assert (ws + [w])[1..] == [];
    } else {
      assert (ws + [w])[1..] == ws[1..] + [w];
      FirstInitialSnoc(ws[1..], w, k);
    }
  }

  // The history is read off the steps and what the constructors in them did, not off the host.

  /** What a constructor left as state: nothing if it threw, or if there is no class to run. */
  function InitialState(entry: Entry, o: Built): State {
    if entry.logic.None? || entry.logic.value == BASE || o.Threw? then map[] else o.state
  }

  function WritesOf(s: System, step: Step): seq<Write> {
    if step.Setting? then [Patch(step.update(s.host.logic.state))]
    else if Builds(s, step) then [Initial(InitialState(s.entry, step.outcome))]
    else []
  }

  function History(s: System, steps: seq<Step>): seq<Write>
    decreases |steps|
  {
    if steps == [] then [] else WritesOf(s, steps[0]) + History(Next(s, steps[0]), steps[1..])
  }

  /** The state holds what a history of writes says. */
  ghost predicate Holds(m: State, ws: seq<Write>) {
    forall k: string :: Lookup(m, k) == Remembered(ws, k)
  }

  lemma RememberPatch(ws: seq<Write>, p: State, k: string)
    ensures Remembered(ws + [Patch(p)], k) == if k in p then Some(p[k]) else Remembered(ws, k)
  {
    assert (ws + [Patch(p)])[..|ws|] == ws;
    FirstInitialSnoc(ws, Patch(p), k);
  }

  lemma RememberInitial(ws: seq<Write>, m: State, k: string)
    ensures Remembered(ws + [Initial(m)], k) ==
            if Remembered(ws, k).Some? then Remembered(ws, k) else Lookup(m, k)
  {
    assert (ws + [Initial(m)])[..|ws|] == ws;
    FirstInitialSnoc(ws, Initial(m), k);
  }

  lemma PatchHolds(m: State, ws: seq<Write>, p: State)
    requires Holds(m, ws)
    ensures Holds(m + p, ws + [Patch(p)])
  {
    forall k: string ensures Lookup(m + p, k) == Remembered(ws + [Patch(p)], k) {
      RememberPatch(ws, p, k);
      assert Lookup(m, k) == Remembered(ws, k);
    }
  }

  lemma InitialHolds(m: State, ws: seq<Write>, init: State)
    requires Holds(m, ws)
    ensures Holds(init + m, ws + [Initial(init)])
  {
    forall k: string ensures Lookup(init + m, k) == Remembered(ws + [Initial(init)], k) {
      RememberInitial(ws, init, k);
      assert Lookup(m, k) == Remembered(ws, k);
    }
  }

  /** Right after construction the state is what the constructor set. */
  lemma StartState(entry: Entry, props: Props, o: Built)
    ensures Start(entry, props, o).host.logic.state == InitialState(entry, o)
  {
  }

  lemma StateRendered(s: System, step: Step)
    requires step.Rendering?
    ensures var m, m' := s.host.logic.state, Next(s, step).host.logic.state;
            m' == if Builds(s, step) then InitialState(s.entry, step.outcome) + m else m
  {
  }

  /** A build keeps the old state over what the constructor set; nothing else but `setState` changes the state. */
  lemma StateAfter(s: System, step: Step)
    ensures var m, m' := s.host.logic.state, Next(s, step).host.logic.state;
            && (Builds(s, step) ==> m' == InitialState(s.entry, step.outcome) + m)
            && (step.Setting? ==> m' == m + step.update(m))
            && (!Builds(s, step) && !step.Setting? ==> m' == m)
  {
    if step.Rendering? { StateRendered(s, step); }
  }

  lemma HoldsNext(s: System, step: Step, ws: seq<Write>)
    requires Holds(s.host.logic.state, ws)
    ensures Holds(Next(s, step).host.logic.state, ws + WritesOf(s, step))
  {
    var m := s.host.logic.state;
    StateAfter(s, step);
    if step.Setting? {
      PatchHolds(m, ws, step.update(m));
    } else if Builds(s, step) {
      InitialHolds(m, ws, InitialState(s.entry, step.outcome));
    } else {
      assert ws + [] == ws;
    }
  }

  lemma {:induction false} HoldsRun(s: System, steps: seq<Step>, ws: seq<Write>)
    requires Holds(s.host.logic.state, ws)
    ensures Holds(Run(s, steps).host.logic.state, ws + History(s, steps))
    decreases |steps|
  {
    if steps == [] {
      assert ws + [] == ws;
    } else {
      HoldsNext(s, steps[0], ws);
      HoldsRun(Next(s, steps[0]), steps[1..], ws + WritesOf(s, steps[0]));
      assert ws + WritesOf(s, steps[0]) + History(Next(s, steps[0]), steps[1..]) == ws + History(s, steps);
    }
  }

  /**
   Over every run, with any swaps and failing constructors in between, each key of the logic state
   holds what `setState` last wrote to it, or else the first initial value any constructor set.
   */
  lemma StateSurvivesSwaps(entry: Entry, props: Props, outcome: Built, steps: seq<Step>)
    ensures var s := Start(entry, props, outcome);
            Holds(Run(s, steps).host.logic.state, [Initial(InitialState(entry, outcome))] + History(s, steps))
  {
    var s := Start(entry, props, outcome);
    var init := InitialState(entry, outcome);
    StartState(entry, props, outcome);
    InitialHolds(map[], [], init);
    assert init + map[] == init && [] + [Initial(init)] == [Initial(init)];
    HoldsRun(s, steps, [Initial(init)]);
  }

  /** A swap loses no key and changes no value; what it adds is what the new class starts with. */
  lemma SwapOnlyAddsKeys(h: Host, entry: Entry, outcome: Built)
    ensures var s, s' := h.logic.state, Reconcile(h, entry, outcome).logic.state;
            && s.Keys <= s'.Keys
            && (forall k | k in s :: s'[k] == s[k])
            && (forall k | k in s' && k !in s :: outcome.Built? && k in outcome.state && s'[k] == outcome.state[k])
  {
  }

  // ---------------------------------------------------------------- failed constructors

  /** What is remembered of a failure is remembered together, and the base class stands in for the failed one. */
  predicate Recorded(h: Host) {
    && (h.failedLogic.Some? <==> h.ctorError.Some?) && (h.failedProps.Some? <==> h.ctorError.Some?)
    && (h.ctorError.Some? ==> h.logic.cls == BASE && h.failedLogic != Some(BASE))
  }

  lemma RecordedMake(h: Host, cls: Option<ClassId>, prev: Option<State>, ver: nat, o: Built)
    ensures var h' := MakeLogic(h, cls, prev, ver, o);
            && Recorded(h')
            && (h'.ctorError.None? ==> h'.logic.cls == if cls.Some? then cls.value else BASE)
  {
  }

  lemma RecordedRender(h: Host, entry: Entry, cyclic: bool, o: Built)
    requires Recorded(h)
    ensures var h' := Render(h, entry, cyclic, o);
            && Recorded(h')
            && (!cyclic && !h.err && h'.ctorError.None? ==>
                h'.logic.cls == if entry.logic.Some? then entry.logic.value else BASE)
  {
    if Swaps(h, entry, cyclic) {
      var h1 := if h.needsDidMount then h else h.(hooks := h.hooks + [WillUnmount(h.logic.id)]);
      RecordedMake(h1, entry.logic, Some(h.logic.state), entry.ver, o);
    }
  }

  lemma RecordedNext(s: System, step: Step)
    requires Recorded(s.host)
    ensures Recorded(Next(s, step).host)
  {
    if step.Rendering? { RecordedRender(s.host.(props := step.props), s.entry, step.cyclic, step.outcome); }
  }

  /** Every state of every run keeps its failure record consistent. */
  lemma {:induction false} RecordedRun(s: System, steps: seq<Step>)
    requires Recorded(s.host)
    ensures Recorded(Run(s, steps).host)
    decreases |steps|
  {
    if steps != [] {
      RecordedNext(s, steps[0]);
      RecordedRun(Next(s, steps[0]), steps[1..]);
    }
  }

  /**
   Hot swap takes effect: in every run, a render outside cycle and error state leaves an instance of the
   registry's class, or of the base class if there is none, unless a constructor error is on record.
   */
  lemma SwapTakesEffect(entry: Entry, props: Props, outcome: Built, steps: seq<Step>, p: Props, o: Built)
    requires !Run(Start(entry, props, outcome), steps).host.err
    ensures var s := Run(Start(entry, props, outcome), steps);
            var h := Next(s, Rendering(p, false, o)).host;
            && (h.ctorError.None? ==> h.logic.cls == if s.entry.logic.Some? then s.entry.logic.value else BASE)
            && (h.ctorError.Some? ==> h.logic.cls == BASE)
  {
    RecordedRun(Start(entry, props, outcome), steps);
    var s := Run(Start(entry, props, outcome), steps);
    RecordedRender(s.host.(props := p), s.entry, false, o);
  }

  /** A host whose last constructor failed, under the class and version it failed with. */
  predicate Failed(s: System) {
    && s.host.failedLogic.Some? && s.host.failedProps.Some?
    && s.entry.logic == s.host.failedLogic && s.entry.ver == s.host.failedVer
  }

  /** The step keeps class and version, and no compared prop differs from `props`. */
  predicate Keeps(step: Step, entry: Entry, props: Props) {
    match step
    case Registry(e) => e.logic == entry.logic && e.ver == entry.ver
    case Rendering(p, _, _) => ShallowEqual(UserProps(p), Some(props))
    case _ => true
  }

  lemma NoRetryNext(s: System, step: Step)
    requires Failed(s) && Keeps(step, s.entry, s.host.failedProps.value)
    ensures var t := Next(s, step);
            && Failed(t) && t.host.failedProps == s.host.failedProps
            && t.entry.logic == s.entry.logic && t.entry.ver == s.entry.ver
            && t.host.built == s.host.built && t.host.ctorError == s.host.ctorError
            && t.host.logic.id == s.host.logic.id && t.host.logic.cls == s.host.logic.cls
  {
  }

  /** A failed constructor is not tried again as long as class, version and props stay the same. */
  lemma {:induction false} NoRetry(s: System, steps: seq<Step>)
    requires Failed(s)
    requires forall i | 0 <= i < |steps| :: Keeps(steps[i], s.entry, s.host.failedProps.value)
    ensures var t := Run(s, steps);
            && t.host.built == s.host.built && t.host.ctorError == s.host.ctorError
            && t.host.logic.id == s.host.logic.id && t.host.logic.cls == s.host.logic.cls
            && Failed(t) && t.host.failedProps == s.host.failedProps
            && t.entry.logic == s.entry.logic && t.entry.ver == s.entry.ver
    decreases |steps|
  {
    if steps != [] {
      NoRetryNext(s, steps[0]);
      forall i | 0 <= i < |steps| - 1 ensures Keeps(steps[1..][i], s.entry, s.host.failedProps.value) {
        assert Keeps(steps[i + 1], s.entry, s.host.failedProps.value);
      }
      NoRetry(Next(s, steps[0]), steps[1..]);
    }
  }

  /** A constructor has just thrown on props `p`: in a render from state `s`, or when the host was constructed. */
  predicate JustFailed(t: System, s: System, p: Props, error: string) {
    && t.entry.logic.Some? && t.entry.logic.value != BASE
    && (|| (Swaps(s.host.(props := p), s.entry, false) && t == Next(s, Rendering(p, false, Threw(error))))
        || t == Start(t.entry, p, Threw(error)))
  }

  /** What is remembered of it is class, version and props; the base class stands in. */
  lemma FailureIsRemembered(t: System, s: System, p: Props, error: string)
    requires JustFailed(t, s, p, error)
    ensures Failed(t) && t.host.failedProps == Some(UserProps(p))
    ensures t.host.ctorError == Some(error) && t.host.logic.cls == BASE
  {
  }

  /** From the failure on, as long as class, version and props stay the same, nothing is built. */
  lemma NoRetryAfterFailure(t: System, s: System, p: Props, error: string, steps: seq<Step>)
    requires JustFailed(t, s, p, error)
    requires forall i | 0 <= i < |steps| :: Keeps(steps[i], t.entry, UserProps(p))
    ensures Run(t, steps).host.built == t.host.built && Run(t, steps).host.ctorError == Some(error)
  {
    FailureIsRemembered(t, s, p, error);
    NoRetry(t, steps);
  }

  /**
   And then, after any such run, a render for a registry entry `e` and props `q` runs a constructor
   exactly if there is a class to run and one of the three changed: the class, the version, or the
   compared props, where a NaN counts as a change and a traded undefined key does not.
   */
  lemma RetryExactly(
      t: System, s: System, p: Props, error: string, steps: seq<Step>, e: Entry, q: Props, o: Built)
    requires JustFailed(t, s, p, error)
    requires forall i | 0 <= i < |steps| :: Keeps(steps[i], t.entry, UserProps(p))
    requires !Run(t, steps).host.err
    ensures var u := Run(t, steps);
            var before, now := UserProps(p), UserProps(q);
            Next(Next(u, Registry(e)), Rendering(q, false, o)).host.built == u.host.built + 1 <==>
            && e.logic.Some? && e.logic.value != BASE
            && (|| e.logic != t.entry.logic || e.ver != t.entry.ver
                || !SelfEqual(now) || (!SameProps(now, before) && !Masked(now, before)))
  {
    FailureIsRemembered(t, s, p, error);
    NoRetry(t, steps);
    BuildsAgainExactly(Run(t, steps), e, q, o);
    ChangedExactly(UserProps(q), UserProps(p));
  }

  lemma ChangedExactly(a: Props, b: Props)
    ensures !ShallowEqual(a, Some(b)) <==> !SelfEqual(a) || (!SameProps(a, b) && !Masked(a, b))
  {
    ShallowEqualExact(a, b);
    TradedExactly(a, b);
  }

  lemma BuildsAgainExactly(t: System, e: Entry, q: Props, o: Built)
    requires Failed(t) && t.host.logic.cls == BASE && !t.host.err
    ensures Next(Next(t, Registry(e)), Rendering(q, false, o)).host.built == t.host.built + 1 <==>
            && e.logic.Some? && e.logic.value != BASE
            && (|| e.logic != t.entry.logic || e.ver != t.entry.ver
                || !ShallowEqual(UserProps(q), t.host.failedProps))
  {
    BuildsExactly(t.host.(props := q), e, o);
  }

  lemma BuildsExactly(h: Host, entry: Entry, o: Built)
    requires !h.err
    ensures Render(h, entry, false, o).built == (if Settled(h, entry) then h.built else h.built + 1)
  {
  }

  /** A host that stands in for a failed class, in a phase in which it renders. */
  predicate StandsIn(s: System) {
    s.entry.logic.Some? && s.entry.logic.value != BASE && s.host.logic.cls == BASE && !s.host.err
  }

  lemma NaNRetries(s: System, p: Props, error: string)
    requires StandsIn(s) && !SelfEqual(UserProps(p))
    ensures var t := Next(s, Rendering(p, false, Threw(error)));
            StandsIn(t) && t.host.built == s.host.built + 1
  {
    if s.host.failedProps.Some? { ShallowEqualExact(UserProps(p), s.host.failedProps.value); }
    BuildsExactly(s.host.(props := p), s.entry, Threw(error));
    assert !Settled(s.host.(props := p), s.entry);
  }

  /** With a NaN among the props the failing constructor is run again by every render, however often. */
  lemma {:induction false} NaNRetriesAlways(s: System, p: Props, error: string, steps: seq<Step>)
    requires StandsIn(s) && !SelfEqual(UserProps(p))
    requires forall i | 0 <= i < |steps| :: steps[i] == Rendering(p, false, Threw(error))
    ensures Run(s, steps).host.built == s.host.built + |steps|
    decreases |steps|
  {
    if steps != [] {
      NaNRetries(s, p, error);
      NaNRetriesAlways(Next(s, steps[0]), p, error, steps[1..]);
    }
  }

  /** At an input: class 1 throws on `a = NaN`; a render of the same component with the same props builds again. */
  lemma NaNRetryExample(error: string)
    ensures var entry, p := Entry(Some(1), 0, true), map["a" := NaN];
            var s := Start(entry, p, Threw(error));
            s.host.built == 1 && Next(s, Rendering(p, false, Threw(error))).host.built == 2
  {
    var entry, p: Props := Entry(Some(1), 0, true), map["a" := NaN];
    assert "a" in OwnKeys(UserProps(p)) && UserProps(p)["a"] == NaN;
    NaNRetries(Start(entry, p, Threw(error)), p, error);
  }
}
