/** The runtime object, whose methods update the registry in place; each is proved against module Streaming. */
module Runtime {
  import opened Prelude
  import opened Registry
  import opened JsUpdate
  import opened Streaming

  class Runtime {
    const compile: Compiler
    var entries: Entries
    var streamingClass: bool
    /** Fetches started and fetches not yet answered, for the specification. */
    ghost var fetches: seq<string>
    ghost var pending: set<string>

    ghost function Now(): State
      reads this
    {
      State(entries, streamingClass, fetches, pending)
    }

    constructor (compile: Compiler)
      ensures this.compile == compile && Now() == INITIAL
    {
      this.compile := compile;
      entries, streamingClass, fetches, pending := map[], false, [], {};
    }

    /** Returns whether a fetch has to be started. */
    method Ensure(name: string) returns (started: bool)
      modifies this
      ensures Now() == EnsureFetched(old(Now()), name)
      ensures started == !At(old(entries), name).fetched
    {
      var r := At(entries, name);
      if r.fetched { return false; }
      entries := entries[name := r.(fetched := true)];
      fetches, pending := fetches + [name], pending + {name};
      return true;
    }

    method WriteHtml(name: string, html: string)
      modifies this
      ensures Now() == UpdateHtml(compile, old(Now()), name, html)
    {
      var r := At(entries, name).(html := html);
      var compiled := compile(html);
      if compiled.Some? { r := r.(tpl := compiled); }
      entries := entries[name := r.(ver := r.ver + 1)];
    }

    /** A script update, with the updates that its evaluation and its subscribers make in turn. */
    method RunScript(c: Call)
      modifies this
      ensures Now() == old(Now()).(entries := RunCall(old(entries), c))
      decreases c, 1
    {
      var r := At(entries, c.name);
      var seqNo := r.jsSeq + 1;
      entries := entries[c.name := r.(jsSeq := seqNo)];
      RunScripts(c.duringEval);
      r := At(entries, c.name);
      if r.jsSeq != seqNo { return; }
      if c.outcome.Class? {
        r := r.(logicError := None, logic := Some(c.outcome.cls));
      } else {
        r := r.(logicError := ErrorOf(c.name, c.outcome));
      }
      entries := entries[c.name := r.(ver := r.ver + 1)];
      RunScripts(c.duringBump);
    }

    method RunScripts(cs: seq<Call>)
      modifies this
      ensures Now() == old(Now()).(entries := RunCalls(old(entries), cs))
      decreases cs, 0
    {
      if cs != [] {
        RunScript(cs[0]);
        RunScripts(cs[1..]);
      }
    }

    /** The loop over all entries, in any order, until one of them is streaming. */
    method FindStreaming() returns (any: bool)
      ensures any == AnyStreaming(entries)
    {
      any := false;
      var names := entries.Keys;
      while names != {} && !any
        invariant names <= entries.Keys
        invariant any ==> AnyStreaming(entries)
        invariant !any ==> forall n | n in entries && n !in names :: !IsStreaming(entries[n])
        decreases names, !any
      {
        var n :| n in names;
        if IsStreaming(entries[n]) { any := true; }
        names := names - {n};
      }
    }

    /** Sets one flag and recomputes the streaming class over all entries. */
    method SetFlag(name: string, html: bool, on: bool)
      modifies this
      ensures Now() == SetStreaming(old(Now()), name, html, on)
    {
      var r := At(entries, name);
      r := if html then r.(htmlStreaming := on) else r.(jsStreaming := on);
      entries := entries[name := r];
      streamingClass := FindStreaming();
      entries := entries[name := r.(ver := r.ver + 1)];
    }

    method Mark(name: string)
      modifies this
      ensures Now() == MarkFetched(old(Now()), name)
    {
      entries := entries[name := At(entries, name).(fetched := true)];
    }

    method Bump(name: string)
      modifies this
      ensures Now() == Touch(old(Now()), name)
    {
      var r := At(entries, name);
      entries := entries[name := r.(ver := r.ver + 1)];
    }

    method DcUpdate(name: string, content: Content, streaming: bool)
      modifies this
      ensures Now() == Push(compile, old(Now()), name, content, streaming)
    {
      if streaming { Mark(name); }
      match content
      case Html(html) =>
        SetFlag(name, true, streaming);
        WriteHtml(name, html);
      case Js(call) =>
        SetFlag(name, false, streaming);
        if !streaming { RunScript(call.(name := name)); }
      case PropsMeta =>
        Bump(name);
    }

    method OnReply(name: string, parsed: Option<Parsed>)
      modifies this
      ensures Now() == Reply(compile, old(Now()), name, parsed)
    {
      pending := pending - {name};
      if parsed.None? { return; }
      var p := parsed.value;
      if p.template != "" && At(entries, name).html == "" { WriteHtml(name, p.template); }
      if p.js.Some? && At(entries, name).logic.None? { RunScript(p.js.value.(name := name)); }
    }

    method AdoptParsed(name: string, p: Parsed)
      modifies this
      ensures Now() == Adopt(compile, old(Now()), name, p)
    {
      if p.template != "" { WriteHtml(name, p.template); }
      if p.js.Some? { RunScript(p.js.value.(name := name)); }
    }
  }
}
