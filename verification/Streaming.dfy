/**
 Pushed updates, sibling fetches and streaming flags, interleaved in any order. Compilation of
 a template is a parameter: it yields a template or throws.
 */
module Streaming {
  import opened Prelude
  import opened Registry
  import opened JsUpdate

  type Compiler = string -> Option<Tpl>

  /** What a fetched document holds; an empty template or a missing script counts as absent. */
  datatype Parsed = Parsed(template: string, js: Option<Call>)

  datatype Content = Html(html: string) | Js(call: Call) | PropsMeta

  /** `classOn` is the streaming class of the document; `fetches` and `pending` are the requests to the network. */
  datatype State = State(
    entries: Entries,
    classOn: bool,
    fetches: seq<string>,
    pending: set<string>)

  const INITIAL: State := State(map[], false, [], {})

  function Put(s: State, name: string, e: Entry): State {
    s.(entries := s.entries[name := e])
  }

  function EnsureFetched(s: State, name: string): State {
    var e := At(s.entries, name);
    if e.fetched then s
    else Put(s, name, e.(fetched := true)).(fetches := s.fetches + [name], pending := s.pending + {name})
  }

  function UpdateHtml(c: Compiler, s: State, name: string, html: string): State {
    var e := At(s.entries, name);
    var tpl := if c(html).Some? then c(html) else e.tpl;
    Put(s, name, e.(html := html, tpl := tpl, ver := e.ver + 1))
  }

  function UpdateJs(s: State, name: string, call: Call): State {
    s.(entries := RunCall(s.entries, call.(name := name)))
  }

  ghost predicate AnyStreaming(es: Entries) {
    exists n :: n in es && IsStreaming(es[n])
  }

  ghost function SetStreaming(s: State, name: string, html: bool, on: bool): State {
    var e := At(s.entries, name);
    var e1 := if html then e.(htmlStreaming := on) else e.(jsStreaming := on);
    Put(s, name, e1.(ver := e.ver + 1)).(classOn := AnyStreaming(s.entries[name := e1]))
  }

  function MarkFetched(s: State, name: string): State {
    Put(s, name, At(s.entries, name).(fetched := true))
  }

  function Touch(s: State, name: string): State {
    var e := At(s.entries, name);
    Put(s, name, e.(ver := e.ver + 1))
  }

  function Begin(s: State, name: string, streaming: bool): State {
    if streaming then MarkFetched(s, name) else s
  }

  ghost function Push(c: Compiler, s: State, name: string, content: Content, streaming: bool): State {
    var s1 := Begin(s, name, streaming);
    match content
    case Html(html) => UpdateHtml(c, SetStreaming(s1, name, true, streaming), name, html)
    case Js(call) =>
      var s2 := SetStreaming(s1, name, false, streaming);
      if streaming then s2 else UpdateJs(s2, name, call)
    case PropsMeta => Touch(s1, name)
  }

  function TakeTemplate(c: Compiler, s: State, name: string, p: Parsed): State {
    if p.template != "" then UpdateHtml(c, s, name, p.template) else s
  }

  function TakeScript(s: State, name: string, p: Parsed): State {
    if p.js.Some? then UpdateJs(s, name, p.js.value) else s
  }

  /** Arrival of a sibling fetch: each half is used only if nothing is there yet. */
  function Reply(c: Compiler, s: State, name: string, parsed: Option<Parsed>): State {
    var s0 := s.(pending := s.pending - {name});
    if parsed.None? then s0
    else
      var s1 := if At(s0.entries, name).html == "" then TakeTemplate(c, s0, name, parsed.value) else s0;
      if At(s1.entries, name).logic.None? then TakeScript(s1, name, parsed.value) else s1
  }

  /** The document that was booted from: taken over without looking at what is there. */
  function Adopt(c: Compiler, s: State, name: string, p: Parsed): State {
    TakeScript(TakeTemplate(c, s, name, p), name, p)
  }

  datatype Step =
    | Ensure(name: string)
    | Replied(name: string, parsed: Option<Parsed>)
    | Pushed(name: string, content: Content, streaming: bool)
    | Marked(name: string)
    | Adopted(name: string, doc: Parsed)
    | Rewritten(name: string, html: string)
    | Scripted(name: string, call: Call)
    | PropsSet(name: string)

  predicate Enabled(s: State, step: Step) {
    step.Replied? ==> step.name in s.pending
  }

  /** Replies come for pending fetches; everything else comes at any time. */
  lemma Freedom(s: State, step: Step)
    ensures Enabled(s, step) <==> !step.Replied? || step.name in s.pending
  {
  }

  ghost function Next(c: Compiler, s: State, step: Step): State {
    match step
    case Ensure(n) => EnsureFetched(s, n)
    case Replied(n, p) => Reply(c, s, n, p)
    case Pushed(n, content, streaming) => Push(c, s, n, content, streaming)
    case Marked(n) => MarkFetched(s, n)
    case Adopted(n, p) => Adopt(c, s, n, p)
    case Rewritten(n, html) => UpdateHtml(c, s, n, html)
    case Scripted(n, call) => UpdateJs(s, n, call)
    case PropsSet(n) => Touch(s, n)
  }

  ghost function Run(c: Compiler, s: State, steps: seq<Step>): State
    decreases |steps|
  {
    if steps == [] then s else Run(c, Next(c, s, steps[0]), steps[1..])
  }

  ghost predicate Legal(c: Compiler, s: State, steps: seq<Step>)
    decreases |steps|
  {
    steps == [] || (Enabled(s, steps[0]) && Legal(c, Next(c, s, steps[0]), steps[1..]))
  }

  // ---------------------------------------------------------------- what a push does and leaves alone

  lemma UpdateJsKeeps(s: State, name: string, call: Call, n: string)
    ensures var e, e' := At(s.entries, n), At(UpdateJs(s, name, call).entries, n);
            && e'.html == e.html && e'.tpl == e.tpl && e'.fetched == e.fetched
            && e'.jsStreaming == e.jsStreaming && e'.htmlStreaming == e.htmlStreaming
  {
    var c := call.(name := name);
    CallIsFold(s.entries, c, n);
    CallsKeepRest(At(s.entries, n), Trace(c), n);
  }

  /**
   A push sets the streaming flag of its own kind only; html arrives at once, a script only when it is
   complete; and another name's html and flags never change.
   */
  lemma PushEffect(c: Compiler, s: State, name: string, content: Content, streaming: bool, n: string)
    ensures var e, e' := At(s.entries, n), At(Push(c, s, name, content, streaming).entries, n);
            && e'.htmlStreaming == (if n == name && content.Html? then streaming else e.htmlStreaming)
            && e'.jsStreaming == (if n == name && content.Js? then streaming else e.jsStreaming)
            && e'.html == (if n == name && content.Html? then content.html else e.html)
            && (content.Html? || streaming || content.PropsMeta? ==> e'.logic == e.logic && e'.jsSeq == e.jsSeq)
            && (e'.fetched <==> e.fetched || (n == name && streaming))
  {
    if content.Js? {
      UpdateJsKeeps(SetStreaming(Begin(s, name, streaming), name, false, streaming), name, content.call, n);
    }
  }

  // ---------------------------------------------------------------- fetches

  ghost predicate FetchInv(s: State) {
    && (forall i, j | 0 <= i < j < |s.fetches| :: s.fetches[i] != s.fetches[j])
    && (forall i | 0 <= i < |s.fetches| :: At(s.entries, s.fetches[i]).fetched)
    && forall n :: n in s.pending ==> n in s.fetches
  }

  /** From `s` to `t` no flag is cleared and no fetch is started. */
  ghost predicate NoFetch(s: State, t: State, n: string) {
    && (At(s.entries, n).fetched ==> At(t.entries, n).fetched)
    && t.fetches == s.fetches && t.pending <= s.pending
  }

  lemma NoFetchDoc(c: Compiler, s: State, name: string, p: Parsed, n: string)
    ensures NoFetch(s, TakeTemplate(c, s, name, p), n)
    ensures NoFetch(s, TakeScript(s, name, p), n)
  {
    if p.js.Some? { UpdateJsKeeps(s, name, p.js.value, n); }
  }

  lemma NoFetchReply(c: Compiler, s: State, name: string, p: Parsed, n: string)
    ensures NoFetch(s, Reply(c, s, name, Some(p)), n) && NoFetch(s, Adopt(c, s, name, p), n)
  {
    var s0 := s.(pending := s.pending - {name});
    NoFetchDoc(c, s, name, p, n);
    NoFetchDoc(c, s0, name, p, n);
    NoFetchDoc(c, TakeTemplate(c, s0, name, p), name, p, n);
    NoFetchDoc(c, TakeTemplate(c, s, name, p), name, p, n);
  }

  lemma NoFetchPush(c: Compiler, s: State, name: string, content: Content, streaming: bool, n: string)
    ensures NoFetch(s, Push(c, s, name, content, streaming), n)
  {
    if content.Js? {
      UpdateJsKeeps(SetStreaming(Begin(s, name, streaming), name, false, streaming), name, content.call, n);
    }
  }

  /** The `fetched` flag is never cleared, and only `ensureFetched` starts a fetch. */
  lemma FetchedNext(c: Compiler, s: State, step: Step, n: string)
    ensures step.Ensure? || NoFetch(s, Next(c, s, step), n)
  {
    match step
    case Replied(m, p) => if p.Some? { NoFetchReply(c, s, m, p.value, n); }
    case Pushed(m, content, streaming) => NoFetchPush(c, s, m, content, streaming, n);
    case Adopted(m, p) => NoFetchReply(c, s, m, p, n);
    case Scripted(m, call) => UpdateJsKeeps(s, m, call, n);
    case _ =>
  }

  lemma FetchInvNext(c: Compiler, s: State, step: Step)
    requires FetchInv(s)
    ensures FetchInv(Next(c, s, step))
  {
    var t := Next(c, s, step);
    FetchedNext(c, s, step, step.name);
    forall i | 0 <= i < |t.fetches|
      ensures At(t.entries, t.fetches[i]).fetched
    {
      FetchedNext(c, s, step, t.fetches[i]);
      if i < |s.fetches| { assert t.fetches[i] == s.fetches[i]; }
    }
    forall n | n in t.pending
      ensures n in t.fetches
    {
      if n in s.pending { assert n in s.fetches; }
    }
  }

  /**
   In every run each name is fetched at most once; and a name whose entry was marked as fetched
   before, be it by the boot or by a streamed push, is never fetched at all.
   */
  lemma {:induction false} FetchedOnce(c: Compiler, s: State, steps: seq<Step>, n: string)
    requires FetchInv(s)
    ensures FetchInv(Run(c, s, steps))
    ensures At(s.entries, n).fetched && n !in s.fetches ==> n !in Run(c, s, steps).fetches
    decreases |steps|
  {
    if steps != [] {
      FetchInvNext(c, s, steps[0]);
      FetchedNext(c, s, steps[0], n);
      FetchedOnce(c, Next(c, s, steps[0]), steps[1..], n);
    }
  }

  lemma {:induction false} NoSecondReply(c: Compiler, s: State, steps: seq<Step>, n: string)
    requires At(s.entries, n).fetched && n !in s.pending && Legal(c, s, steps)
    ensures forall i | 0 <= i < |steps| :: !(steps[i].Replied? && steps[i].name == n)
    decreases |steps|
  {
    if steps != [] {
      FetchedNext(c, s, steps[0], n);
      NoSecondReply(c, Next(c, s, steps[0]), steps[1..], n);
      forall i | 0 <= i < |steps| ensures !(steps[i].Replied? && steps[i].name == n) {
        if i > 0 { assert steps[i] == steps[1..][i - 1]; }
      }
    }
  }

  /** In every run at most one reply arrives for a name. */
  lemma {:induction false} AnsweredOnce(c: Compiler, s: State, steps: seq<Step>, i: nat, j: nat)
    requires FetchInv(s) && Legal(c, s, steps) && i < j < |steps|
    requires steps[i].Replied? && steps[j].Replied?
    ensures steps[i].name != steps[j].name
    decreases |steps|
  {
    FetchInvNext(c, s, steps[0]);
    var n := steps[i].name;
    if i == 0 {
      assert n in s.fetches;
      FetchedNext(c, s, steps[0], n);
      NoSecondReply(c, Next(c, s, steps[0]), steps[1..], n);
      assert steps[j] == steps[1..][j - 1];
    } else {
      AnsweredOnce(c, Next(c, s, steps[0]), steps[1..], i - 1, j - 1);
    }
  }

  // ---------------------------------------------------------------- late replies

  /** A late reply replaces neither html that is there nor a class that is there. */
  lemma LateReply(c: Compiler, s: State, name: string, parsed: Option<Parsed>)
    ensures var e, e' := At(s.entries, name), At(Reply(c, s, name, parsed).entries, name);
            && (e.html != "" ==> e'.html == e.html && e'.tpl == e.tpl)
            && (e.logic.Some? ==> e'.logic == e.logic && e'.logicError == e.logicError)
  {
    if parsed.Some? {
      var s0 := s.(pending := s.pending - {name});
      var s1 := if At(s0.entries, name).html == "" then TakeTemplate(c, s0, name, parsed.value) else s0;
      if parsed.value.js.Some? { UpdateJsKeeps(s1, name, parsed.value.js.value, name); }
    }
  }

  /** The step pushes html to the name, as opposed to offering it. */
  predicate PushesHtml(step: Step, name: string) {
    step.name == name && (step.Adopted? || step.Rewritten? || (step.Pushed? && step.content.Html?))
  }

  ghost predicate SameHtml(s: State, t: State, n: string) {
    At(t.entries, n).html == At(s.entries, n).html && At(t.entries, n).tpl == At(s.entries, n).tpl
  }

  lemma SameHtmlScript(s: State, name: string, p: Parsed, n: string)
    ensures SameHtml(s, TakeScript(s, name, p), n)
  {
    if p.js.Some? { UpdateJsKeeps(s, name, p.js.value, n); }
  }

  lemma SameHtmlReply(c: Compiler, s: State, name: string, p: Parsed, n: string)
    requires At(s.entries, n).html != ""
    ensures SameHtml(s, Reply(c, s, name, Some(p)), n)
    ensures name != n ==> SameHtml(s, Adopt(c, s, name, p), n)
  {
    var s0 := s.(pending := s.pending - {name});
    SameHtmlScript(s0, name, p, n);
    SameHtmlScript(TakeTemplate(c, s0, name, p), name, p, n);
    SameHtmlScript(TakeTemplate(c, s, name, p), name, p, n);
  }

  lemma HtmlNext(c: Compiler, s: State, step: Step, n: string)
    requires At(s.entries, n).html != "" && !PushesHtml(step, n)
    ensures SameHtml(s, Next(c, s, step), n)
  {
    match step
    case Replied(m, p) => if p.Some? { SameHtmlReply(c, s, m, p.value, n); }
    case Pushed(m, content, streaming) => SameHtmlPush(c, s, m, content, streaming, n);
    case Adopted(m, p) => SameHtmlReply(c, s, m, p, n);
    case Scripted(m, call) => UpdateJsKeeps(s, m, call, n);
    case _ =>
  }

  lemma SameHtmlPush(c: Compiler, s: State, m: string, content: Content, streaming: bool, n: string)
    requires content.Html? ==> m != n
    ensures SameHtml(s, Push(c, s, m, content, streaming), n)
  {
    if content.Js? {
      UpdateJsKeeps(SetStreaming(Begin(s, m, streaming), m, false, streaming), m, content.call, n);
    }
  }

  /** Html that was pushed stays until the next push, whatever replies arrive in between. */
  lemma {:induction false} PushedHtmlStays(c: Compiler, s: State, steps: seq<Step>, n: string)
    requires At(s.entries, n).html != ""
    requires forall i | 0 <= i < |steps| :: !PushesHtml(steps[i], n)
    ensures SameHtml(s, Run(c, s, steps), n)
    decreases |steps|
  {
    if steps != [] {
      HtmlNext(c, s, steps[0], n);
      forall i | 0 <= i < |steps[1..]| ensures !PushesHtml(steps[1..][i], n) {
        assert !PushesHtml(steps[i + 1], n);
      }
      PushedHtmlStays(c, Next(c, s, steps[0]), steps[1..], n);
    }
  }

  // ---------------------------------------------------------------- what a reply brings

  /** Compiling `html` over what was there: a text that does not compile leaves the old template. */
  function CompiledOver(c: Compiler, html: string, old_: Option<Tpl>): Option<Tpl> {
    if c(html).Some? then c(html) else old_
  }

  /** The starts of a script that is evaluated for a name. */
  function StartsOf(name: string, call: Call): seq<Start> {
    Trace(call.(name := name))
  }

  /** What a script does to the entry of a name, in the words of `NewestWins`; `more` counts other version bumps. */
  ghost predicate Ran(e: Entry, e': Entry, t: seq<Start>, n: string, more: nat) {
    && e'.logicError == (if Last(t, n).Some? then ErrorOf(n, Last(t, n).value.outcome) else e.logicError)
    && e'.logic == (if LastClass(t, n).Some? then LastClass(t, n) else e.logic)
    && e'.ver == e.ver + Count(t, n, true) + more
    && e'.jsSeq == e.jsSeq + Count(t, n, false)
  }

  lemma ScriptRuns(s: State, name: string, call: Call, n: string)
    ensures var e, e' := At(s.entries, n), At(UpdateJs(s, name, call).entries, n);
            && Ran(e, e', StartsOf(name, call), n, 0)
            && e'.html == e.html && e'.tpl == e.tpl
  {
    var c := call.(name := name);
    UpdateJsKeeps(s, name, call, n);
    NewestWins(s.entries, [c], n);
    assert [c][1..] == [];
    assert Traces([c]) == Trace(c) + Traces([]) == Trace(c);
  }

  /** The half of a document that holds the template is used exactly if there is one and no html yet. */
  predicate UsesTemplate(e: Entry, parsed: Option<Parsed>) {
    parsed.Some? && parsed.value.template != "" && e.html == ""
  }

  predicate UsesScript(e: Entry, parsed: Option<Parsed>) {
    parsed.Some? && parsed.value.js.Some? && e.logic.None?
  }

  /**
   A reply is used: its template becomes the html of a name that has none and is compiled, and its
   script runs for a name that has no class. What is there already stays.
   */
  lemma ReplyEffect(c: Compiler, s: State, name: string, parsed: Option<Parsed>)
    ensures var e, e' := At(s.entries, name), At(Reply(c, s, name, parsed).entries, name);
            var more := if UsesTemplate(e, parsed) then 1 else 0;
            && (if UsesTemplate(e, parsed)
                then e'.html == parsed.value.template && e'.tpl == CompiledOver(c, parsed.value.template, e.tpl)
                else e'.html == e.html && e'.tpl == e.tpl)
            && (if UsesScript(e, parsed) then Ran(e, e', StartsOf(name, parsed.value.js.value), name, more)
                else e'.logic == e.logic && e'.logicError == e.logicError && e'.jsSeq == e.jsSeq && e'.ver == e.ver + more)
  {
    if parsed.Some? {
      var s0 := s.(pending := s.pending - {name});
      var s1 := if At(s0.entries, name).html == "" then TakeTemplate(c, s0, name, parsed.value) else s0;
      if parsed.value.js.Some? { ScriptRuns(s1, name, parsed.value.js.value, name); }
    }
  }

  /** The boot document is used whatever is there. */
  lemma AdoptEffect(c: Compiler, s: State, name: string, p: Parsed)
    ensures var e, e' := At(s.entries, name), At(Adopt(c, s, name, p).entries, name);
            var more := if p.template != "" then 1 else 0;
            && (if p.template != "" then e'.html == p.template && e'.tpl == CompiledOver(c, p.template, e.tpl)
                else e'.html == e.html && e'.tpl == e.tpl)
            && (if p.js.Some? then Ran(e, e', StartsOf(name, p.js.value), name, more)
                else e'.logic == e.logic && e'.logicError == e.logicError && e'.jsSeq == e.jsSeq && e'.ver == e.ver + more)
  {
    if p.js.Some? { ScriptRuns(TakeTemplate(c, s, name, p), name, p.js.value, name); }
  }

  /** Each kind of push tells the subscribers of its name; a complete script runs. */
  lemma PushTells(c: Compiler, s: State, name: string, content: Content, streaming: bool, n: string)
    ensures var e, e' := At(s.entries, n), At(Push(c, s, name, content, streaming).entries, n);
            match content
            case Html(html) =>
              && e'.ver == (if n == name then e.ver + 2 else e.ver)
              && e'.tpl == (if n == name then CompiledOver(c, html, e.tpl) else e.tpl)
            case Js(call) =>
              var t := if streaming then [] else StartsOf(name, call);
              e'.tpl == e.tpl && Ran(e, e', t, n, if n == name then 1 else 0)
            case PropsMeta => e' == e.(ver := e'.ver, fetched := e'.fetched) && e'.ver == (if n == name then e.ver + 1 else e.ver)
  {
    if content.Js? && !streaming {
      ScriptRuns(SetStreaming(s, name, false, false), name, content.call, n);
    }
  }

  /** The updates that do not come as pushes. */
  lemma OtherUpdates(c: Compiler, s: State, name: string, html: string, call: Call, n: string)
    ensures At(Next(c, s, Rewritten(name, html)).entries, n) ==
            (var e := At(s.entries, n);
             if n == name then e.(html := html, tpl := CompiledOver(c, html, e.tpl), ver := e.ver + 1) else e)
    ensures Ran(At(s.entries, n), At(Next(c, s, Scripted(name, call)).entries, n), StartsOf(name, call), n, 0)
    ensures At(Next(c, s, PropsSet(name)).entries, n) ==
            (var e := At(s.entries, n); if n == name then e.(ver := e.ver + 1) else e)
  {
    ScriptRuns(s, name, call, n);
  }

  lemma {:induction false} RunSplit(c: Compiler, s: State, a: seq<Step>, b: seq<Step>)
    ensures Run(c, s, a + b) == Run(c, Run(c, s, a), b)
    decreases |a|
  {
    if a == [] {
      assert a + b == b;
    } else {
      assert (a + b)[0] == a[0] && (a + b)[1..] == a[1..] + b;
      RunSplit(c, Next(c, s, a[0]), a[1..], b);
    }
  }

  /**
   Over any run, once a reply with a template has come for a name the name has html until html is pushed:
   that which it had before the reply, or else the reply's.
   */
  lemma RepliedHtmlStays(c: Compiler, s: State, before: seq<Step>, n: string, p: Parsed, after: seq<Step>)
    requires p.template != ""
    requires forall i | 0 <= i < |after| :: !PushesHtml(after[i], n)
    ensures var e := At(Run(c, s, before).entries, n);
            At(Run(c, s, before + ([Replied(n, Some(p))] + after)).entries, n).html ==
            if e.html == "" then p.template else e.html
  {
    var t := Run(c, s, before);
    RunSplit(c, s, before, [Replied(n, Some(p))] + after);
    assert ([Replied(n, Some(p))] + after)[1..] == after;
    ReplyEffect(c, t, n, Some(p));
    PushedHtmlStays(c, Next(c, t, Replied(n, Some(p))), after, n);
  }

  // ---------------------------------------------------------------- templates and the streaming class

  datatype Write = Write(name: string, html: string)

  /** The html that a step writes, read off the step and the entry it finds. */
  function WritesOf(s: State, step: Step): seq<Write> {
    match step
    case Pushed(n, Html(html), _) => [Write(n, html)]
    case Adopted(n, p) => if p.template != "" then [Write(n, p.template)] else []
    case Rewritten(n, html) => [Write(n, html)]
    case Replied(n, p) => if UsesTemplate(At(s.entries, n), p) then [Write(n, p.value.template)] else []
    case _ => []
  }

  ghost function History(c: Compiler, s: State, steps: seq<Step>): seq<Write>
    decreases |steps|
  {
    if steps == [] then [] else WritesOf(s, steps[0]) + History(c, Next(c, s, steps[0]), steps[1..])
  }

  /** The compile of the latest html written to a name that compiles. */
  function LatestTpl(c: Compiler, writes: seq<Write>, name: string): Option<Tpl> {
    if writes == [] then None
    else
      var w := writes[|writes| - 1];
      if w.name == name && c(w.html).Some? then c(w.html) else LatestTpl(c, writes[..|writes| - 1], name)
  }

  function LatestHtml(writes: seq<Write>, name: string): string {
    if writes == [] then ""
    else if writes[|writes| - 1].name == name then writes[|writes| - 1].html
    else LatestHtml(writes[..|writes| - 1], name)
  }

  ghost predicate Shows(c: Compiler, s: State, writes: seq<Write>, n: string) {
    && At(s.entries, n).tpl == LatestTpl(c, writes, n)
    && At(s.entries, n).html == LatestHtml(writes, n)
  }

  lemma ShowsWrite(c: Compiler, s: State, writes: seq<Write>, name: string, html: string, n: string)
    requires Shows(c, s, writes, n)
    ensures Shows(c, UpdateHtml(c, s, name, html), writes + [Write(name, html)], n)
  {
    LatestSnoc(c, writes, Write(name, html), n);
  }

  lemma LatestSnoc(c: Compiler, writes: seq<Write>, w: Write, n: string)
    ensures LatestTpl(c, writes + [w], n) == if w.name == n && c(w.html).Some? then c(w.html) else LatestTpl(c, writes, n)
    ensures LatestHtml(writes + [w], n) == if w.name == n then w.html else LatestHtml(writes, n)
  {
    assert (writes + [w])[..|writes|] == writes;
  }

  /** The document has the streaming class exactly when html or script of some name is being streamed. */
  ghost predicate ClassInv(s: State) {
    s.classOn <==> exists n: string :: At(s.entries, n).htmlStreaming || At(s.entries, n).jsStreaming
  }

  lemma AnyStreamingAt(es: Entries)
    ensures AnyStreaming(es) <==> exists n: string :: IsStreaming(At(es, n))
  {
    forall n: string | IsStreaming(At(es, n)) ensures n in es && IsStreaming(es[n]) {}
    if AnyStreaming(es) {
      var n :| n in es && IsStreaming(es[n]);
      assert IsStreaming(At(es, n));
    }
  }

  lemma ClassAfterSet(s: State, name: string, html: bool, on: bool)
    ensures ClassInv(SetStreaming(s, name, html, on))
  {
    var t := SetStreaming(s, name, html, on);
    var e := At(s.entries, name);
    var e1 := if html then e.(htmlStreaming := on) else e.(jsStreaming := on);
    var es := s.entries[name := e1];
    AnyStreamingAt(es);
    forall n: string ensures IsStreaming(At(t.entries, n)) == IsStreaming(At(es, n)) {}
  }

  lemma ClassKept(s: State, t: State)
    requires ClassInv(s) && t.classOn == s.classOn
    requires forall n: string :: IsStreaming(At(t.entries, n)) == IsStreaming(At(s.entries, n))
    ensures ClassInv(t)
  {
  }

  lemma ClassAfterJs(s: State, name: string, call: Call)
    requires ClassInv(s)
    ensures ClassInv(UpdateJs(s, name, call))
  {
    var t := UpdateJs(s, name, call);
    forall n: string ensures IsStreaming(At(t.entries, n)) == IsStreaming(At(s.entries, n)) {
      UpdateJsKeeps(s, name, call, n);
    }
    ClassKept(s, t);
  }

  lemma ClassAfterHtml(c: Compiler, s: State, name: string, html: string)
    requires ClassInv(s)
    ensures ClassInv(UpdateHtml(c, s, name, html))
  {
    ClassKept(s, UpdateHtml(c, s, name, html));
  }

  lemma ClassNext(c: Compiler, s: State, step: Step)
    requires ClassInv(s)
    ensures ClassInv(Next(c, s, step))
  {
    match step
    case Replied(m, p) =>
      var s0 := s.(pending := s.pending - {m});
      ClassKept(s, s0);
      if p.Some? { ClassAfterDoc(c, s0, m, p.value); }
    case Pushed(m, content, streaming) => ClassAfterPush(c, s, m, content, streaming);
    case Adopted(m, p) => ClassAfterDoc(c, s, m, p);
    case Rewritten(m, html) => ClassAfterHtml(c, s, m, html);
    case Scripted(m, call) => ClassAfterJs(s, m, call);
    case _ => ClassKept(s, Next(c, s, step));
  }

  lemma ClassAfterDoc(c: Compiler, s: State, name: string, p: Parsed)
    requires ClassInv(s)
    ensures ClassInv(TakeTemplate(c, s, name, p)) && ClassInv(TakeScript(s, name, p))
    ensures ClassInv(Adopt(c, s, name, p))
  {
    ClassAfterHtml(c, s, name, p.template);
    if p.js.Some? {
      ClassAfterJs(s, name, p.js.value);
      ClassAfterJs(TakeTemplate(c, s, name, p), name, p.js.value);
    }
  }

  lemma ClassAfterPush(c: Compiler, s: State, name: string, content: Content, streaming: bool)
    requires ClassInv(s)
    ensures ClassInv(Push(c, s, name, content, streaming))
  {
    var s1 := Begin(s, name, streaming);
    match content
    case Html(html) =>
      ClassAfterSet(s1, name, true, streaming);
      ClassAfterHtml(c, SetStreaming(s1, name, true, streaming), name, html);
    case Js(call) =>
      ClassAfterSet(s1, name, false, streaming);
      ClassAfterJs(SetStreaming(s1, name, false, streaming), name, call);
    case PropsMeta => ClassKept(s, Touch(s1, name));
  }

  lemma ShowsJs(c: Compiler, s: State, writes: seq<Write>, name: string, call: Call, n: string)
    requires Shows(c, s, writes, n)
    ensures Shows(c, UpdateJs(s, name, call), writes, n)
  {
    UpdateJsKeeps(s, name, call, n);
  }

  lemma ShowsScript(c: Compiler, s: State, writes: seq<Write>, name: string, p: Parsed, n: string)
    requires Shows(c, s, writes, n)
    ensures Shows(c, TakeScript(s, name, p), writes, n)
  {
    if p.js.Some? { ShowsJs(c, s, writes, name, p.js.value, n); }
  }

  lemma ShowsReply(c: Compiler, s: State, writes: seq<Write>, name: string, parsed: Option<Parsed>, n: string)
    requires Shows(c, s, writes, n)
    ensures Shows(c, Reply(c, s, name, parsed), writes + WritesOf(s, Replied(name, parsed)), n)
  {
    var s0 := s.(pending := s.pending - {name});
    assert writes + [] == writes;
    if parsed.Some? {
      var p := parsed.value;
      ShowsWrite(c, s0, writes, name, p.template, n);
      var s1 := if At(s0.entries, name).html == "" then TakeTemplate(c, s0, name, p) else s0;
      ShowsScript(c, s1, writes + WritesOf(s, Replied(name, parsed)), name, p, n);
    }
  }

  lemma ShowsAdopt(c: Compiler, s: State, writes: seq<Write>, name: string, p: Parsed, n: string)
    requires Shows(c, s, writes, n)
    ensures Shows(c, Adopt(c, s, name, p), writes + WritesOf(s, Adopted(name, p)), n)
  {
    assert writes + [] == writes;
    ShowsWrite(c, s, writes, name, p.template, n);
    ShowsScript(c, TakeTemplate(c, s, name, p), writes + WritesOf(s, Adopted(name, p)), name, p, n);
  }

  lemma ShowsPush(c: Compiler, s: State, writes: seq<Write>, name: string, content: Content, streaming: bool, n: string)
    requires Shows(c, s, writes, n)
    ensures Shows(c, Push(c, s, name, content, streaming), writes + WritesOf(s, Pushed(name, content, streaming)), n)
  {
    assert writes + [] == writes;
    var s1 := Begin(s, name, streaming);
    match content
    case Html(html) => ShowsWrite(c, SetStreaming(s1, name, true, streaming), writes, name, html, n);
    case Js(call) => ShowsJs(c, SetStreaming(s1, name, false, streaming), writes, name, call, n);
    case PropsMeta =>
  }

  lemma ShowsNext(c: Compiler, s: State, writes: seq<Write>, step: Step, n: string)
    requires Shows(c, s, writes, n)
    ensures Shows(c, Next(c, s, step), writes + WritesOf(s, step), n)
  {
    assert writes + [] == writes;
    match step
    case Replied(m, p) => ShowsReply(c, s, writes, m, p, n);
    case Pushed(m, content, streaming) => ShowsPush(c, s, writes, m, content, streaming, n);
    case Adopted(m, p) => ShowsAdopt(c, s, writes, m, p, n);
    case Rewritten(m, html) => ShowsWrite(c, s, writes, m, html, n);
    case Scripted(m, call) => ShowsJs(c, s, writes, m, call, n);
    case _ =>
  }

  lemma {:induction false} ClassRun(c: Compiler, s: State, steps: seq<Step>)
    requires ClassInv(s)
    ensures ClassInv(Run(c, s, steps))
    decreases |steps|
  {
    if steps != [] {
      ClassNext(c, s, steps[0]);
      ClassRun(c, Next(c, s, steps[0]), steps[1..]);
    }
  }

  lemma Regroup<T>(a: seq<T>, b: seq<T>, rest: seq<T>)
    ensures a + b + rest == a + (b + rest) && a + [] == a && [] + a == a
  {
  }

  /** One step of a run, and what it writes. */
  lemma FirstStep(c: Compiler, s: State, steps: seq<Step>, writes: seq<Write>, n: string)
      returns (t: State, first: seq<Write>)
    requires steps != [] && Shows(c, s, writes, n)
    ensures Run(c, s, steps) == Run(c, t, steps[1..]) && History(c, s, steps) == first + History(c, t, steps[1..])
    ensures Shows(c, t, writes + first, n)
  {
    t, first := Next(c, s, steps[0]), WritesOf(s, steps[0]);
    ShowsNext(c, s, writes, steps[0], n);
  }

  lemma {:induction false} HistoryShows(c: Compiler, s: State, writes: seq<Write>, steps: seq<Step>, n: string)
    requires Shows(c, s, writes, n)
    ensures Shows(c, Run(c, s, steps), writes + History(c, s, steps), n)
    decreases |steps|
  {
    if steps == [] {
      Regroup(writes, [], []);
    } else {
      var t, first := FirstStep(c, s, steps, writes, n);
      HistoryShows(c, t, writes + first, steps[1..], n);
      Regroup(writes, first, History(c, t, steps[1..]));
    }
  }

  /**
   In every run html and template of a name are the latest html written to it and the compile of the
   latest that compiles, and the document has the streaming class exactly when some entry is streaming.
   */
  lemma RunShows(c: Compiler, s: State, writes: seq<Write>, steps: seq<Step>, n: string)
    requires Shows(c, s, writes, n) && ClassInv(s)
    ensures Shows(c, Run(c, s, steps), writes + History(c, s, steps), n) && ClassInv(Run(c, s, steps))
  {
    HistoryShows(c, s, writes, steps, n);
    ClassRun(c, s, steps);
  }

  /** The same from the start of the runtime, where nothing is fetched, written or streaming. */
  lemma FromTheStart(c: Compiler, steps: seq<Step>, n: string)
    ensures var s := Run(c, INITIAL, steps); FetchInv(s) && Shows(c, s, History(c, INITIAL, steps), n) && ClassInv(s)
  {
    FetchedOnce(c, INITIAL, steps, n);
    RunShows(c, INITIAL, [], steps, n);
    assert [] + History(c, INITIAL, steps) == History(c, INITIAL, steps);
  }

  // ---------------------------------------------------------------- flags, versions and requests, from the steps

  /** The step marks the name as fetched, by asking for it or by making a fetch superfluous. */
  predicate Marks(step: Step, n: string) {
    step.name == n && (step.Ensure? || step.Marked? || (step.Pushed? && step.streaming))
  }

  /** A name is marked exactly by these steps. */
  lemma MarkedNext(c: Compiler, s: State, step: Step, n: string)
    ensures At(Next(c, s, step).entries, n).fetched <==> At(s.entries, n).fetched || Marks(step, n)
  {
    match step
    case Replied(m, p) => if p.Some? { MarkedReply(c, s, m, p.value, n); }
    case Pushed(m, content, streaming) => PushEffect(c, s, m, content, streaming, n);
    case Adopted(m, p) => MarkedReply(c, s, m, p, n);
    case Scripted(m, call) => UpdateJsKeeps(s, m, call, n);
    case _ =>
  }

  lemma MarkedReply(c: Compiler, s: State, name: string, p: Parsed, n: string)
    ensures At(Reply(c, s, name, Some(p)).entries, n).fetched == At(s.entries, n).fetched
    ensures At(Adopt(c, s, name, p).entries, n).fetched == At(s.entries, n).fetched
  {
    if p.js.Some? {
      var s0 := s.(pending := s.pending - {name});
      UpdateJsKeeps(s0, name, p.js.value, n);
      UpdateJsKeeps(TakeTemplate(c, s0, name, p), name, p.js.value, n);
      UpdateJsKeeps(TakeTemplate(c, s, name, p), name, p.js.value, n);
    }
  }

  /** The names asked for, in order, given those that are marked already. */
  function Asked(steps: seq<Step>, marked: set<string>): seq<string>
    decreases |steps|
  {
    if steps == [] then []
    else
      var step := steps[0];
      (if step.Ensure? && step.name !in marked then [step.name] else []) + Asked(steps[1..], MarkedAfter(step, marked))
  }

  lemma RequestsNext(c: Compiler, s: State, step: Step)
    ensures var t := Next(c, s, step);
            var asks := step.Ensure? && !At(s.entries, step.name).fetched;
            && t.fetches == (if asks then s.fetches + [step.name] else s.fetches)
            && t.pending == (if asks then s.pending + {step.name}
                             else if step.Replied? then s.pending - {step.name} else s.pending)
  {
  }

  function MarkedAfter(step: Step, marked: set<string>): set<string> {
    if Marks(step, step.name) then marked + {step.name} else marked
  }

  ghost predicate MarkedAre(s: State, marked: set<string>) {
    forall n: string :: n in marked <==> At(s.entries, n).fetched
  }

  lemma MarkedStep(c: Compiler, s: State, step: Step, marked: set<string>)
    requires MarkedAre(s, marked)
    ensures MarkedAre(Next(c, s, step), MarkedAfter(step, marked))
  {
    forall n: string
      ensures n in MarkedAfter(step, marked) <==> At(Next(c, s, step).entries, n).fetched
    {
      MarkedNext(c, s, step, n);
    }
  }

  /** In every run fetches are started exactly by the steps that ask for a name no earlier step has marked, in order. */
  lemma {:induction false} FetchesExactly(c: Compiler, s: State, steps: seq<Step>, marked: set<string>)
    requires MarkedAre(s, marked)
    ensures Run(c, s, steps).fetches == s.fetches + Asked(steps, marked)
    decreases |steps|
  {
    if steps == [] {
      Regroup(s.fetches, [], []);
    } else {
      var step, t := steps[0], Next(c, s, steps[0]);
      RequestsNext(c, s, step);
      MarkedStep(c, s, step, marked);
      FetchesExactly(c, t, steps[1..], MarkedAfter(step, marked));
      Regroup(s.fetches, [step.name], Asked(steps[1..], MarkedAfter(step, marked)));
      Regroup(Asked(steps[1..], MarkedAfter(step, marked)), [], []);
    }
  }

  /** In every run a fetch is pending exactly if it was started and no reply has come. */
  lemma {:induction false} PendingExactly(c: Compiler, s: State, steps: seq<Step>, n: string)
    requires FetchInv(s) && Legal(c, s, steps)
    ensures var t := Run(c, s, steps);
            n in t.pending <==>
            (n in s.pending || (n in t.fetches && n !in s.fetches)) && !Answered(steps, n)
    decreases |steps|
  {
    if steps != [] {
      var step, t := steps[0], Next(c, s, steps[0]);
      RequestsNext(c, s, step);
      FetchInvNext(c, s, step);
      PendingExactly(c, t, steps[1..], n);
      AnsweredCons(steps, n);
      if step.Ensure? && step.name == n && !At(s.entries, n).fetched {
        FetchesGrow(c, t, steps[1..], n);
      }
    }
  }

  predicate Answered(steps: seq<Step>, n: string) {
    exists i | 0 <= i < |steps| :: steps[i].Replied? && steps[i].name == n
  }

  lemma AnsweredCons(steps: seq<Step>, n: string)
    requires steps != []
    ensures Answered(steps, n) <==> (steps[0].Replied? && steps[0].name == n) || Answered(steps[1..], n)
  {
    if Answered(steps[1..], n) {
      var i :| 0 <= i < |steps[1..]| && steps[1..][i].Replied? && steps[1..][i].name == n;
      assert steps[i + 1] == steps[1..][i];
    }
    if i :| 0 <= i < |steps| && steps[i].Replied? && steps[i].name == n {
      if i > 0 { assert steps[1..][i - 1] == steps[i]; }
    }
  }

  lemma {:induction false} FetchesGrow(c: Compiler, s: State, steps: seq<Step>, n: string)
    requires n in s.fetches
    ensures n in Run(c, s, steps).fetches
    decreases |steps|
  {
    if steps != [] {
      RequestsNext(c, s, steps[0]);
      FetchesGrow(c, Next(c, s, steps[0]), steps[1..], n);
    }
  }

  /** And a name is marked exactly if it was before or some step marks it. */
  lemma {:induction false} MarkedExactly(c: Compiler, s: State, steps: seq<Step>, n: string)
    ensures At(Run(c, s, steps).entries, n).fetched <==>
            At(s.entries, n).fetched || exists i | 0 <= i < |steps| :: Marks(steps[i], n)
    decreases |steps|
  {
    if steps != [] {
      MarkedNext(c, s, steps[0], n);
      MarkedExactly(c, Next(c, s, steps[0]), steps[1..], n);
      if i :| 0 <= i < |steps[1..]| && Marks(steps[1..][i], n) { assert Marks(steps[i + 1], n); }
      if i :| 0 <= i < |steps| && Marks(steps[i], n) { if i > 0 { assert Marks(steps[1..][i - 1], n); } }
    }
  }
}
