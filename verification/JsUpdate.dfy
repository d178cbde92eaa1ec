/**
 `updateJs` under re-entrance. Evaluating an author's script may call `updateJs` again, and so may
 the subscribers that a commit notifies; a call is therefore a tree of the calls made inside it.
 */
module JsUpdate {
  import opened Prelude
  import opened Registry

  /** What a script evaluates to: a class, something else, or an exception. */
  datatype Outcome = Class(cls: ClassId) | NotClass | Threw(error: string)

  datatype Call = Call(name: string, outcome: Outcome, duringEval: seq<Call>, duringBump: seq<Call>)

  function ErrorOf(name: string, o: Outcome): Option<string> {
    match o
    case Class(_) => None
    case NotClass => Some(name + ".dc.html: <script data-dc-script> must define `class Component extends DCLogic`")
    case Threw(e) => Some(name + ": " + e)
  }

  /** Recording an evaluation, and the version bump that goes with it. */
  function Commit(e: Entry, name: string, o: Outcome): Entry {
    e.(logicError := ErrorOf(name, o), logic := if o.Class? then Some(o.cls) else e.logic, ver := e.ver + 1)
  }

  /** One call, as the runtime runs it. Subscribers run only when the call commits. */
  function RunCall(es: Entries, c: Call): Entries
    decreases c, 1
  {
    var r := At(es, c.name);
    var seqNo := r.jsSeq + 1;
    var evaluated := RunCalls(es[c.name := r.(jsSeq := seqNo)], c.duringEval);
    var now := At(evaluated, c.name);
    if now.jsSeq != seqNo then evaluated
    else RunCalls(evaluated[c.name := Commit(now, c.name, c.outcome)], c.duringBump)
  }

  function RunCalls(es: Entries, cs: seq<Call>): Entries
    decreases cs, 0
  {
    if cs == [] then es else RunCalls(RunCall(es, cs[0]), cs[1..])
  }

  // ---------------------------------------------------------------- who starts, and who commits

  /** A call that was started, and whether it commits. */
  datatype Start = Start(name: string, outcome: Outcome, commits: bool)

  predicate StartsOn(t: seq<Start>, name: string) {
    exists i | 0 <= i < |t| :: t[i].name == name
  }

  /**
   The calls started by a call, in starting order. A call commits exactly when no call on
   the same name starts while it evaluates.
   */
  function Trace(c: Call): seq<Start>
    decreases c, 1
  {
    var inner := Traces(c.duringEval);
    var commits := !StartsOn(inner, c.name);
    [Start(c.name, c.outcome, commits)] + inner + if commits then Traces(c.duringBump) else []
  }

  function Traces(cs: seq<Call>): seq<Start>
    decreases cs, 0
  {
    if cs == [] then [] else Trace(cs[0]) + Traces(cs[1..])
  }

  /** What one start means for the entry of `name`: it takes a number, and commits or not. */
  function FoldOne(e: Entry, s: Start, name: string): Entry {
    if s.name != name then e
    else if s.commits then Commit(e.(jsSeq := e.jsSeq + 1), name, s.outcome)
    else e.(jsSeq := e.jsSeq + 1)
  }

  /** What a sequence of starts means for one name, in starting order. */
  function Fold(e: Entry, t: seq<Start>, name: string): Entry
    decreases |t|
  {
    if t == [] then e else Fold(FoldOne(e, t[0], name), t[1..], name)
  }

  lemma {:induction false} FoldConcat(e: Entry, a: seq<Start>, b: seq<Start>, name: string)
    ensures Fold(e, a + b, name) == Fold(Fold(e, a, name), b, name)
    decreases |a|
  {
    if a == [] {
      assert a + b == b;
    } else {
      assert (a + b)[1..] == a[1..] + b;
      FoldConcat(FoldOne(e, a[0], name), a[1..], b, name);
    }
  }

  lemma {:induction false} FoldNumbers(e: Entry, t: seq<Start>, name: string)
    ensures Fold(e, t, name).jsSeq >= e.jsSeq
    ensures Fold(e, t, name).jsSeq == e.jsSeq <==> !StartsOn(t, name)
    ensures !StartsOn(t, name) ==> Fold(e, t, name) == e
    decreases |t|
  {
    if t != [] {
      FoldNumbers(FoldOne(e, t[0], name), t[1..], name);
      StartsOnCons(t, name);
    }
  }

  lemma StartsOnCons(t: seq<Start>, name: string)
    requires t != []
    ensures StartsOn(t, name) <==> t[0].name == name || StartsOn(t[1..], name)
  {
    if StartsOn(t, name) && t[0].name != name {
      var i :| 0 <= i < |t| && t[i].name == name;
      assert t[1..][i - 1].name == name;
    }
    if StartsOn(t[1..], name) {
      var i :| 0 <= i < |t[1..]| && t[1..][i].name == name;
      assert t[i + 1].name == name;
    }
  }

  /** Running a call does to every name what its starts mean, in starting order: newest wins. */
  lemma {:induction false} CallIsFold(es: Entries, c: Call, name: string)
    ensures At(RunCall(es, c), name) == Fold(At(es, name), Trace(c), name)
    decreases c, 1
  {
    var r := At(es, c.name);
    var started := es[c.name := r.(jsSeq := r.jsSeq + 1)];
    var inner := Traces(c.duringEval);
    CallsAreFold(started, c.duringEval, c.name);
    CallsAreFold(started, c.duringEval, name);
    FoldNumbers(At(started, c.name), inner, c.name);
    var evaluated := RunCalls(started, c.duringEval);
    var s := Start(c.name, c.outcome, !StartsOn(inner, c.name));
    if s.commits {
      var committed := evaluated[c.name := Commit(At(evaluated, c.name), c.name, c.outcome)];
      CallsAreFold(committed, c.duringBump, name);
      assert Trace(c) == [s] + inner + Traces(c.duringBump);
      TraceFold(At(es, name), s, inner, Traces(c.duringBump), name);
      if name == c.name {
        FoldNumbers(At(committed, name), inner, name);
      }
    } else {
      assert Trace(c) == [s] + inner + [];
      TraceFold(At(es, name), s, inner, [], name);
    }
  }

  lemma TraceFold(e: Entry, s: Start, a: seq<Start>, b: seq<Start>, name: string)
    ensures Fold(e, [s] + a + b, name) == Fold(Fold(Fold(e, [s], name), a, name), b, name)
  {
    FoldConcat(e, [s] + a, b, name);
    FoldConcat(e, [s], a, name);
  }

  lemma {:induction false} CallsAreFold(es: Entries, cs: seq<Call>, name: string)
    ensures At(RunCalls(es, cs), name) == Fold(At(es, name), Traces(cs), name)
    decreases cs, 0
  {
    if cs != [] {
      CallIsFold(es, cs[0], name);
      CallsAreFold(RunCall(es, cs[0]), cs[1..], name);
      FoldConcat(At(es, name), Trace(cs[0]), Traces(cs[1..]), name);
    }
  }

  // ---------------------------------------------------------------- what is left in the entry

  /** A call that does not commit is followed by a newer start on its name. */
  ghost predicate StaleHasNewer(t: seq<Start>) {
    forall i | 0 <= i < |t| && !t[i].commits :: StartsOn(t[i + 1..], t[i].name)
  }

  lemma StaleConcat(a: seq<Start>, b: seq<Start>)
    requires StaleHasNewer(a) && StaleHasNewer(b)
    ensures StaleHasNewer(a + b)
  {
    var t := a + b;
    forall i | 0 <= i < |t| && !t[i].commits
      ensures StartsOn(t[i + 1..], t[i].name)
    {
      if i < |a| {
        var j :| 0 <= j < |a[i + 1..]| && a[i + 1..][j].name == a[i].name;
        assert t[i + 1..][j] == a[i + 1..][j];
      } else {
        assert t[i + 1..] == b[i - |a| + 1..];
      }
    }
  }

  lemma {:induction false} StaleInCall(c: Call)
    ensures StaleHasNewer(Trace(c))
    decreases c, 1
  {
    var inner := Traces(c.duringEval);
    var s := Start(c.name, c.outcome, !StartsOn(inner, c.name));
    StaleInCalls(c.duringEval);
    assert StaleHasNewer([s] + inner) by {
      var t := [s] + inner;
      forall i | 0 <= i < |t| && !t[i].commits ensures StartsOn(t[i + 1..], t[i].name) {
        if i == 0 { assert t[1..] == inner; } else { assert t[i + 1..] == inner[i..]; }
      }
    }
    if s.commits {
      StaleInCalls(c.duringBump);
      StaleConcat([s] + inner, Traces(c.duringBump));
    } else {
      assert Trace(c) == [s] + inner;
    }
  }

  lemma {:induction false} StaleInCalls(cs: seq<Call>)
    ensures StaleHasNewer(Traces(cs))
    decreases cs, 0
  {
    if cs != [] {
      StaleInCall(cs[0]);
      StaleInCalls(cs[1..]);
      StaleConcat(Trace(cs[0]), Traces(cs[1..]));
    }
  }

  /** Number of starts on a name, or of those that commit. */
  function Count(t: seq<Start>, name: string, onlyCommits: bool): nat {
    if t == [] then 0
    else (if t[0].name == name && (onlyCommits ==> t[0].commits) then 1 else 0) + Count(t[1..], name, onlyCommits)
  }

  /** The last start on a name. */
  function Last(t: seq<Start>, name: string): Option<Start> {
    if t == [] then None
    else if t[|t| - 1].name == name then Some(t[|t| - 1])
    else Last(t[..|t| - 1], name)
  }

  /** The class of the last start on a name that commits one. */
  function LastClass(t: seq<Start>, name: string): Option<ClassId> {
    if t == [] then None
    else
      var s := t[|t| - 1];
      if s.name == name && s.commits && s.outcome.Class? then Some(s.outcome.cls)
      else LastClass(t[..|t| - 1], name)
  }

  lemma {:induction false} FoldCounts(e: Entry, t: seq<Start>, name: string)
    ensures Fold(e, t, name).jsSeq == e.jsSeq + Count(t, name, false)
    ensures Fold(e, t, name).ver == e.ver + Count(t, name, true)
    decreases |t|
  {
    if t != [] {
      FoldCounts(FoldOne(e, t[0], name), t[1..], name);
    }
  }

  lemma {:induction false} FoldLogic(e: Entry, t: seq<Start>, name: string)
    ensures Fold(e, t, name).logic == if LastClass(t, name).Some? then LastClass(t, name) else e.logic
    decreases |t|
  {
    if t != [] {
      var n := |t| - 1;
      assert t == t[..n] + [t[n]];
      FoldConcat(e, t[..n], [t[n]], name);
      FoldLogic(e, t[..n], name);
    }
  }

  lemma {:induction false} FoldError(e: Entry, a: seq<Start>, b: seq<Start>, name: string)
    requires !StartsOn(b, name) && StaleHasNewer(a + b)
    ensures var last := Last(a, name);
            Fold(e, a, name).logicError == if last.Some? then ErrorOf(name, last.value.outcome) else e.logicError
    ensures Last(a, name).Some? ==> Last(a, name).value.commits
    decreases |a|
  {
    if a != [] {
      var n := |a| - 1;
      var s := a[n];
      assert a == a[..n] + [s];
      FoldConcat(e, a[..n], [s], name);
      if s.name == name {
        assert (a + b)[n] == s && (a + b)[n + 1..] == b;
      } else {
        assert a[..n] + ([s] + b) == a + b;
        StartsOnCons([s] + b, name);
        assert ([s] + b)[1..] == b;
        FoldError(e, a[..n], [s] + b, name);
      }
    }
  }

  /**
   The outcome of any forest of nested calls, for every name: the error is that of the call
   started last, which did commit; the class is that of the latest commit of a class; the version grew
   by the commits and the sequence number by the starts.
   */
  lemma NewestWins(es: Entries, cs: seq<Call>, name: string)
    ensures var e, e', t := At(es, name), At(RunCalls(es, cs), name), Traces(cs);
            && e'.logicError == (if Last(t, name).Some? then ErrorOf(name, Last(t, name).value.outcome) else e.logicError)
            && (Last(t, name).Some? ==> Last(t, name).value.commits)
            && (Last(t, name).Some? ==> (e'.logicError.None? <==> Last(t, name).value.outcome.Class?))
            && (Last(t, name).Some? && Last(t, name).value.outcome.Threw? ==>
                e'.logicError == Some(name + ": " + Last(t, name).value.outcome.error))
            && (Last(t, name).Some? && Last(t, name).value.outcome.NotClass? ==>
                e'.logicError == Some(name + ".dc.html: <script data-dc-script> must define `class Component extends DCLogic`"))
            && e'.logic == (if LastClass(t, name).Some? then LastClass(t, name) else e.logic)
            && e'.ver == e.ver + Count(t, name, true)
            && e'.jsSeq == e.jsSeq + Count(t, name, false)
  {
    var e, t := At(es, name), Traces(cs);
    CallsAreFold(es, cs, name);
    StaleInCalls(cs);
    FoldCounts(e, t, name);
    FoldLogic(e, t, name);
    assert t + [] == t;
    FoldError(e, t, [], name);
  }

  /** Starts change class, error, version and number only, and a class once set is never lost. */
  lemma {:induction false} CallsKeepRest(e: Entry, t: seq<Start>, name: string)
    ensures var e' := Fold(e, t, name);
            && e'.html == e.html && e'.tpl == e.tpl && e'.fetched == e.fetched
            && e'.jsStreaming == e.jsStreaming && e'.htmlStreaming == e.htmlStreaming
            && (e.logic.Some? ==> e'.logic.Some?)
    decreases |t|
  {
    if t != [] {
      CallsKeepRest(FoldOne(e, t[0], name), t[1..], name);
    }
  }
}
