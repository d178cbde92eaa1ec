/** The component class itself, whose methods update its fields; each is proved against module Lifecycle. */
module Component {
  import opened Prelude
  import opened Lifecycle
  import Nesting

  /** What a render puts on the page, apart from the contents of the template. */
  datatype Shown = Circular(cycle: seq<string>) | Crashed | Waiting | Template

  class StreamableComponent {
    const name: string
    var props: Props
    var logic: Instance
    var needsDidMount: bool
    var failedLogic: Option<ClassId>
    var failedProps: Option<Props>
    var failedVer: int
    var ctorError: Option<string>
    var err: bool
    var built: nat
    /** The calls made on logic instances, for the specification. */
    ghost var hooks: seq<Hook>

    ghost function Now(): Host
      reads this
    {
      Host(props, logic, needsDidMount, failedLogic, failedProps, failedVer, ctorError, err, built, hooks)
    }

    /** `outcome` is what the author's constructor does when it is run. */
    constructor (name: string, props: Props, r: Entry, outcome: Built)
      ensures this.name == name && Now() == Construct(r, props, outcome)
    {
      this.name := name;
      this.props := props;
      logic := Blank(props).logic;
      needsDidMount, failedLogic, failedProps, failedVer := false, None, None, -1;
      ctorError, err, built, hooks := None, false, 0, [];
      new;
      Make(r.logic, None, r.ver, outcome);
    }

    method Make(cls: Option<ClassId>, prevState: Option<State>, ver: nat, outcome: Built)
      modifies this
      ensures Now() == MakeLogic(old(Now()), cls, prevState, ver, outcome)
    {
      var l := if cls.None? then BASE else cls.value;
      var userProps := UserProps(props);
      match if l == BASE then Built(map[]) else outcome {
        case Built(initial) =>
          logic := Instance(built, l, userProps, initial);
          failedLogic, failedProps, ctorError := None, None, None;
        case Threw(e) =>
          failedLogic, failedProps, failedVer, ctorError := cls, Some(userProps), ver, Some(e);
          logic := Instance(built, BASE, userProps, map[]);
      }
      built := built + 1;
      if prevState.Some? {
        logic := logic.(state := logic.state + prevState.value);
      }
    }

    method SetState(update: State -> State)
      modifies this
      ensures Now() == SetLogicState(old(Now()), update)
    {
      var prev := logic.state;
      var patch := update(prev);
      logic := logic.(state := prev + patch);
    }

    method ReconcileLogic(r: Entry, outcome: Built)
      modifies this
      ensures Now() == Reconcile(old(Now()), r, outcome)
    {
      if r.logic == Some(logic.cls) { return; }
      if r.logic.None? && logic.cls == BASE { return; }
      if r.logic == failedLogic && r.ver == failedVer && ShallowEqual(UserProps(props), failedProps) { return; }
      Replace(r, outcome);
    }

    /** The rest of it, once there is something to swap. */
    method Replace(r: Entry, outcome: Built)
      requires !Settled(Now(), r)
      modifies this
      ensures Now() == Reconcile(old(Now()), r, outcome)
    {
      if !needsDidMount {
        hooks := hooks + [WillUnmount(logic.id)];
      }
      Make(r.logic, Some(logic.state), r.ver, outcome);
      needsDidMount := true;
    }

    /** `chain` lists the components around this one, outermost first. */
    method RenderWith(newProps: Props, r: Entry, chain: seq<string>, outcome: Built) returns (shown: Shown)
      modifies this
      ensures Now() == Render(old(Now()).(props := newProps), r, name in chain, outcome)
      ensures shown.Circular? <==> name in chain
      ensures shown.Circular? ==> exists i | 0 <= i < |chain| ::
                chain[i] == name && name !in chain[..i] && shown.cycle == chain[i..] + [name]
      ensures shown.Crashed? <==> name !in chain && err
      ensures shown.Waiting? <==> name !in chain && !err && !r.hasTpl
    {
      props := newProps;
      if name in chain {
        return Circular(chain[Nesting.IndexOf(chain, name)..] + [name]);
      }
      if err { return Crashed; }
      ReconcileLogic(r, outcome);
      if !r.hasTpl { return Waiting; }
      logic := logic.(props := UserProps(props));
      return Template;
    }

    method ComponentDidMount()
      modifies this
      ensures Now() == OnDidMount(old(Now()))
    {
      hooks := hooks + [DidMount(logic.id)];
    }

    method ComponentDidUpdate(r: Entry)
      modifies this
      ensures Now() == OnDidUpdate(old(Now()), r)
    {
      logic := logic.(props := UserProps(props));
      if needsDidMount {
        if err || !r.hasTpl { return; }
        needsDidMount := false;
        hooks := hooks + [DidMount(logic.id)];
      } else {
        hooks := hooks + [DidUpdate(logic.id)];
      }
    }

    method ComponentWillUnmount()
      modifies this
      ensures Now() == OnWillUnmount(old(Now()))
    {
      if !needsDidMount {
        hooks := hooks + [WillUnmount(logic.id)];
      }
    }
  }
}
