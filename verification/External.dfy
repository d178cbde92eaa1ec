/** The loader object: its maps change in place; each method is proved against module Loader. */
module External {
  import opened Prelude
  import opened Loader

  class ExternalModules {
    var loads: seq<Load>
    var pending: map<string, nat>
    var cache: map<string, Option<bool>>
    var babel: Babel
    /** Whether Babel is on the page already. */
    var present: bool
    ghost var evaluated: seq<nat>

    ghost function Now(): State
      reads this
    {
      State(loads, pending, cache, babel, present, evaluated)
    }

    constructor ()
      ensures Now() == INITIAL
    {
      loads, pending, cache, babel, present, evaluated := [], map[], map[], Idle, false, [];
    }

    method EnsureBabel() returns (waits: bool)
      modifies `babel
      ensures waits == !present
      ensures babel == if waits && old(babel) == Idle then Loading else old(babel)
    {
      if present { return false; }
      if babel == Idle { babel := Loading; }
      return true;
    }

    method LoadUrl(kind: Kind, url: string, after: Option<nat>) returns (i: nat)
      modifies this
      ensures (Now(), i) == Request(old(Now()), kind, url, after)
    {
      if url in pending { return pending[url]; }
      cache := cache[url := None];
      var waits := false;
      if kind == Jsx { waits := EnsureBabel(); }
      i := |loads|;
      loads := loads + [Load(url, waits, after, Waiting)];
      pending := pending[url := i];
    }

    /** The loop of one import: each url is loaded after the one before it. */
    method LoadAll(kindOf: string -> Kind, urls: seq<string>)
      modifies this
      ensures Now() == Chain(old(Now()), kindOf, urls, None)
    {
      var prev: Option<nat> := None;
      assert urls[0..] == urls;
      for k := 0 to |urls|
        invariant Chain(Now(), kindOf, urls[k..], prev) == Chain(old(Now()), kindOf, urls, None)
      {
        assert urls[k..][1..] == urls[k + 1..];
        var i := LoadUrl(kindOf(urls[k]), urls[k], prev);
        prev := Some(i);
      }
    }

    /** A reaction of one load: the promise moves on, and a settled one leaves its result in the cache. */
    method React(step: Step)
      requires OfLoad(step) && Enabled(Now(), step)
      modifies this
      ensures Now() == Next(old(Now()), step)
    {
      var i := step.i;
      var status := match step
        case Begin(_) => Fetching
        case Evaluate(_) => Evaluating
        case Finish(_, ok) => Settled(ok)
        case _ => Settled(false);
      if step.Evaluate? { evaluated := evaluated + [i]; }
      var l := loads[i];
      loads := loads[i := l.(status := status)];
      if status.Settled? { cache := cache[l.url := Some(status.ok)]; }
    }
  }
}
