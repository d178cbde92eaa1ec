# Verified model of the design-component runtime

The repository's design system runs its pages on a small runtime, `GeneWeave Design System/support.js`:
components are HTML templates with `{{ … }}` holes, loops and conditionals, a logic class each,
and imports of other components and of external modules. This project models that runtime in Dafny and
proves what it keeps over every input and every run. Two smaller pieces of the examples are modelled
beside it: rank fusion of memory results and the in-memory key stores.

| module | what it models |
|---|---|
| `Text`, `Scan`, `Evaluator` | trimming and matching, the two bracket scans, the expression evaluator over raw text |
| `Syntax`, `RoundTrip`, `AnyText` | expression trees, their text and their meaning, and the theorem that ties evaluator and meaning together; what any other text evaluates to |
| `Lifecycle`, `Component` | the logic instance behind a component: construction, hot swap, hooks, state; the class whose methods do it |
| `Registry`, `JsUpdate`, `Streaming`, `Runtime` | the component registry, re-entrant script updates, pushes and fetches in any order; the runtime object |
| `Loader`, `LoadOrder`, `External` | the external module loader as a transition system, evaluation order of an import list; the loader object |
| `Nesting` | components inside components and the check that cuts import cycles |
| `Template`, `TemplateMeaning`, `TemplateShows`, `PlainObjects`, `Holes` | templates compiled to closures, their direct meaning, scope of loop names, numbering of elements; what each kind of node shows; the values whose spread reads back; hole splitting |
| `AttrNames`, `ContentKey`, `Digits`, `PseudoSheet` | attribute names through HTML, content keys, numerals, classes for pseudo-class styles |
| `Fusion` | reciprocal-rank fusion with a graph boost |
| `KeyStore`, `KeyStoreRuns` | the in-memory key stores of the two encryption examples; sequences of operations on them |

Main results, and where the code does less than one would expect:

- **Expressions.** Every printed tree evaluates to its meaning. Scans do not stop at quotes, so a string
  literal that holds an operator is split there; `RoundTrip.QuotedTextExact` says exactly when a literal is read as written.
  Any text that is no such tree, a name followed by steps or not, is covered by `AnyText`: anything behind the last step makes the
  whole undefined, so `items.length > 0` has no value.
- **Hooks of a component.** Mount, update and unmount calls are balanced for every logic instance exactly when
  no render swaps the logic before the host is mounted. For a host that is rendered right after construction
  this fails exactly when its constructor throws on props that hold a NaN: the comparison that should stop the second
  attempt finds the props changed. The source comment at lines 801-805 of `support.js` promises that a failed construct
  is not repeated on every re-render; with a NaN prop it is, and the model follows the code.
- **Import cycles.** The check fires exactly when a name comes back on some way down. If imports do not depend on
  props this is exactly when rendering would not end; with props that end the recursion it fires all the same,
  and `Nesting.MisjudgedExactly` says that this is the only way in which it misjudges.
- **Evaluation order of an import list.** It is the list order in every run in which Babel does not fail. If Babel fails,
  a load that waits for it gives up at once, without waiting for its predecessor, so a plain script can overtake another
  one that stands before a jsx module. Order is safe from that exactly when Babel is on the page at the import or no jsx
  module stands between two plain scripts.
- **Failed constructors.** A constructor that threw is not run again until class, version or props change. Props are compared
  by number of keys and value by value, so an undefined prop that goes away together with one that comes goes unnoticed, and
  a NaN always counts as a change; `Lifecycle.RetryExactly` has both cases.
- **Pseudo-class rules.** Keys join pseudo-class and style with a bar. Two names can share a rule exactly if one is the other
  followed by a bar, as `a` and `a|` or `a|b`; other bars do no harm.
- **Key stores.** The two stores cannot be told apart. With unique ids each tenant sees a store of its own; without them a status
  update, which names no tenant, reaches the first record with the id.

JavaScript values are abstract where the code only passes them on: `Evaluator.World` and `Template.Page` are records of the
operations a program can apply to them, and every theorem holds for all such records. Templates are rendered with object
literals, and the law of object spread is asked of those only. React, the network, Babel, script evaluation and template
parsing are steps or results that the environment chooses freely. `dafny verify dfyconfig.toml` checks everything.

## Model

| member | source | states |
|---|---|---|
| Text.TrimOfPadded | GeneWeave Design System/support.js:204 | trimming strips exactly the blanks around a text that starts and ends with none |
| Text.TrimParts | GeneWeave Design System/support.js:204 | on any text trimming takes blanks off both ends and leaves nothing or a core that starts and ends with none |
| Text.BlankExactly | GeneWeave Design System/support.js:204 | the blanks that trimming takes off, one by one (also lines 254) |
| Scan.ParensWrapWhole | GeneWeave Design System/support.js:235-245 | the loop decides whether the round-bracket count returns to zero before the last character, on any text |
| Scan.WrapsWholeIsMatch | GeneWeave Design System/support.js:206-208 | on balanced text the test holds exactly when the first bracket is closed by the last character (also lines 235-245) |
| Scan.FindTopLevelEquality | GeneWeave Design System/support.js:246-260 | the loop returns the leftmost operator outside all brackets with something on its left; left part, operator and right part rebuild the text; none is returned only if none qualifies |
| Scan.AcceptedExactly | GeneWeave Design System/support.js:249-254 | an operator is accepted exactly where `==` or `!=` stands outside brackets with something on its left that does not end in `=` or `!`, so never inside a run such as `!==x` |
| Scan.OperatorText | GeneWeave Design System/support.js:255-256 | the operator found is the three-character one exactly if a third `=` follows |
| Evaluator.Evaluate | GeneWeave Design System/support.js:203-234 | the evaluator ends on every text, malformed ones included, and computes Resolve |
| Evaluator.EvaluateOperand | GeneWeave Design System/support.js:225-234 | without brackets around it and without an equality, a text is a negation, a constant or a path |
| Evaluator.WalkPath | GeneWeave Design System/support.js:261-292 | the path loop computes ResolvePath, with every slice in bounds and every step advancing |
| Evaluator.WalkDot | GeneWeave Design System/support.js:266-270 | a dotted step reads the key after the dot, or gives up if there is none |
| Evaluator.WalkIndex | GeneWeave Design System/support.js:271-285 | a bracketed step evaluates the text between matching brackets and reads that key, or gives up if the bracket is not closed |
| Evaluator.ReadIndex | GeneWeave Design System/support.js:282-284 | once the bracket is found the step reads the value of the text in it and goes on behind it |
| Evaluator.MatchBracket | GeneWeave Design System/support.js:272-281 | the inner loop finds the place that the recursive bracket search finds, which is the first where closing square brackets outnumber opening ones, or runs to the end if there is none |
| Evaluator.FindCloseIsFirst | GeneWeave Design System/support.js:272-282 | the recursive bracket search finds a place exactly when that place is the first that closes |
| AnyText.PlainExactly | GeneWeave Design System/support.js:203-292 | any text without enclosing brackets, operator, negation, reserved word, number or quotes has the value of the guarded reads of its steps if it is a name followed to its end by steps, and is undefined if it is not |
| AnyText.PathReads | GeneWeave Design System/support.js:261-292 | a name followed to its end by steps, each a dot with a whole key or a bracket closed by the first bracket that closes it, reads these steps in order |
| AnyText.NoPathHasNone | GeneWeave Design System/support.js:261-292 | every other text is undefined: no name in front, no key after a dot, a bracket that is never closed, anything else behind a step |
| AnyText.StrayHasNone | GeneWeave Design System/support.js:286-289 | text behind the steps that is no step makes the whole undefined, as in `items.length > 0` |
| AnyText.OneKey | GeneWeave Design System/support.js:264 | no key is read off undefined or null, be it the object of the names or the value of a name (also lines 270) |
| AnyText.BlankHasNone | GeneWeave Design System/support.js:204-205 | a blank text is undefined |
| AnyText.BracketsComeOff | GeneWeave Design System/support.js:206-208 | brackets around any text, balanced or not, are taken off if the first one is closed last |
| AnyText.OperatorSplits | GeneWeave Design System/support.js:209-224 | any other text is split at its leftmost accepted operator |
| AnyText.NegationNegates | GeneWeave Design System/support.js:224 | without brackets around it and without an operator a text that starts with `!` negates the value of the rest |
| AnyText.NumberParts | GeneWeave Design System/support.js:229 | a number is an optional minus, digits, and perhaps a point with digits on both sides |
| AnyText.NumberForm | GeneWeave Design System/support.js:229 | and everything of that form is a number |
| Text.DigitExactly | GeneWeave Design System/support.js:202 | the digits of numbers and of numeric keys (also lines 268) |
| Syntax.PlainLiteralValid | GeneWeave Design System/support.js:230-232 | every string literal without brackets and without `==` and `!=` is among the valid trees (also lines 246-256) |
| Syntax.PrintShape | GeneWeave Design System/support.js:235-260 | printed text is balanced, starts and ends with no blank or equality sign, and shows no operator unless the tree is an equality |
| RoundTrip.PrintedMeaning | GeneWeave Design System/support.js:203-292 | evaluating the text of any valid tree, with any blanks inside and around it, gives the meaning of the tree |
| RoundTrip.PathMeaning | GeneWeave Design System/support.js:261-292 | walking over the text of a path arrives behind it with the meaning of the path, whatever steps follow |
| RoundTrip.EqualMeaning | GeneWeave Design System/support.js:209-224 | an equality is split at its own operator, the leftmost one, even if both its ends are brackets |
| RoundTrip.EqualityGroupsRight | GeneWeave Design System/support.js:209-224 | in a chain of two equalities the right one is evaluated first |
| RoundTrip.NotBindsTighter | GeneWeave Design System/support.js:209-225 | `!` applies to the operand next to it and not to the comparison |
| RoundTrip.QuotedTextExact | GeneWeave Design System/support.js:209-233 | a quoted text evaluates to its own body exactly when the scan accepts no operator in it: quotes do not hide operators (also lines 246-260) |
| RoundTrip.QuotedOperatorExample | GeneWeave Design System/support.js:209-233 | `"a==b"` evaluates to the comparison of two undefined halves |
| Lifecycle.ShallowEqualExact | GeneWeave Design System/support.js:753-760 | on all props, undefined ones included, the comparison holds exactly if no compared value is NaN, common keys agree, and undefined keys alone have given way to equally many other keys |
| Lifecycle.ShallowEqualErrsExactly | GeneWeave Design System/support.js:753-760 | the comparison takes a real change for none exactly if an undefined key is gone and traded for another, and sees a change where there is none exactly if a value is NaN |
| Lifecycle.MissedChangeExample | GeneWeave Design System/support.js:753-760 | the input of a missed change: an undefined prop goes and another one comes, with any value |
| Lifecycle.HooksBalancedExactly | GeneWeave Design System/support.js:839-927 | over every run, hook calls are in order for every instance (mount once, update only while mounted, unmount once and after mount) exactly when no render before the mount swaps the logic; after the host unmounts every mounted instance has been unmounted; while mounted, `__needsDidMount` holds exactly when the current instance is not mounted |
| Lifecycle.HooksExactly | GeneWeave Design System/support.js:875-927 | the calls on logic instances are those of the steps, in order: mount, update or deferred mount at a commit, unmount at a swap or at the end unless the mount is pending |
| Lifecycle.WhoChangesWhat | GeneWeave Design System/support.js:875-927 | only the registry changes the entry, only a caught error the error state, only mounting and leaving the phase |
| Lifecycle.InvNext | GeneWeave Design System/support.js:875-927 | every step other than a swap before the mount keeps that invariant |
| Lifecycle.EarlySwapBreaks | GeneWeave Design System/support.js:875-891 | a swap before the mount breaks the order for good |
| Lifecycle.FirstRenderKeepsLogic | GeneWeave Design System/support.js:821 | construction and first render back to back swap the logic exactly when the constructor fails on props that hold a NaN (also lines 875-880) |
| Lifecycle.MountedHostBalanced | GeneWeave Design System/support.js:821 | a host that is constructed, rendered once, mounted and then goes through anything has balanced hooks exactly unless the constructor fails on props that hold a NaN (also lines 839-927) |
| Lifecycle.CommitMounts | GeneWeave Design System/support.js:900-917 | a commit mounts an instance that is not mounted yet exactly if there is no error and there is a template |
| Lifecycle.PropsReachLogic | GeneWeave Design System/support.js:842 | a new instance is built with the props of its render, and each render with a template and each commit hands the props on (also lines 862-865, 979-980) |
| Lifecycle.UserPropsExactly | GeneWeave Design System/support.js:862-865 | author code sees every prop but the four internal ones |
| Lifecycle.BalancedCounts | GeneWeave Design System/support.js:892-927 | in a balanced log each instance has at most one mount and no more unmounts than mounts, and as many once all are released |
| Lifecycle.StateSurvivesSwaps | GeneWeave Design System/support.js:839-874 | over every run with swaps and failing constructors each state key holds its last `setState` value, or else the first initial value any constructor set; the history is read off the steps and the constructors' outcomes (also lines 889) |
| Lifecycle.StateAfter | GeneWeave Design System/support.js:857-858 | a build lays the old state over what the constructor set, `setState` lays its patch over the old state, and nothing else changes the state (also lines 866-871) |
| Lifecycle.StartState | GeneWeave Design System/support.js:821 | right after construction the state is what the constructor set (also lines 839-842) |
| Lifecycle.SwapOnlyAddsKeys | GeneWeave Design System/support.js:857-858 | a swap loses no key and changes no value; new keys come from the new class alone (also lines 889) |
| Lifecycle.SwapTakesEffect | GeneWeave Design System/support.js:875-891 | in every run a render outside cycle and error state leaves an instance of the registry's class, or of the base class if there is none, unless a constructor error is on record (also lines 971) |
| Lifecycle.NoRetry | GeneWeave Design System/support.js:801-808 | over every run that keeps class, version and compared props a failed constructor is not run again, and what is remembered of the failure stays (also lines 878-881) |
| Lifecycle.NoRetryAfterFailure | GeneWeave Design System/support.js:846-855 | from a failing construction on, at construction of the host or in a render, any run that keeps class, version and compared props builds nothing and keeps the error (also lines 801-808, 878-881) |
| Lifecycle.RetryExactly | GeneWeave Design System/support.js:875-891 | after a failing construction and any run that keeps everything, a render runs a constructor exactly if there is a class and the class or version is another, or a compared prop is NaN, or the compared props really differ by more than a traded undefined key (also lines 753-760, 801-808) |
| Lifecycle.NaNRetriesAlways | GeneWeave Design System/support.js:801-805 | with a NaN among the props a failing constructor is run again by every render, however often (also lines 878-891) |
| Lifecycle.NaNRetryExample | GeneWeave Design System/support.js:801-805 | the input of it: a class that throws on one NaN prop is built twice by construction and one render (also lines 878-891) |
| Component.StreamableComponent.constructor | GeneWeave Design System/support.js:809-823 | the new component is the constructed host |
| Component.StreamableComponent.Make | GeneWeave Design System/support.js:839-861 | building an instance, falling back to the base class on failure, changes the fields as MakeLogic says |
| Component.StreamableComponent.SetState | GeneWeave Design System/support.js:866-871 | the patch is merged over the state and recorded |
| Component.StreamableComponent.ReconcileLogic | GeneWeave Design System/support.js:875-891 | the swap changes the fields as Reconcile says |
| Component.StreamableComponent.Replace | GeneWeave Design System/support.js:883-890 | so does its second half, once the guard has let it through |
| Component.StreamableComponent.RenderWith | GeneWeave Design System/support.js:928-1007 | a component in its own chain shows the cycle from its first place on and does not touch its logic; otherwise an error, a missing template or the template, after the swap |
| Component.StreamableComponent.ComponentDidMount | GeneWeave Design System/support.js:892-899 | the instance is told that it mounted |
| Component.StreamableComponent.ComponentDidUpdate | GeneWeave Design System/support.js:900-917 | a deferred mount is caught up unless there is an error or no template; otherwise the instance is told of the update |
| Component.StreamableComponent.ComponentWillUnmount | GeneWeave Design System/support.js:918-927 | the instance is told to unmount unless its own mount is still pending |
| JsUpdate.CallIsFold | GeneWeave Design System/support.js:1477-1500 | running a tree of nested calls does to every name what its starts mean in starting order, where a call commits exactly when no call on its name started during its evaluation |
| JsUpdate.NewestWins | GeneWeave Design System/support.js:1386-1390 | after any forest of nested calls the error is that of the call started last, which did commit; the class is that of the latest committed class; version and sequence number grew by the commits and the starts (also lines 1477-1500) |
| JsUpdate.StaleInCalls | GeneWeave Design System/support.js:1479-1482 | a call that does not commit is always followed by a newer start on its name (also lines 1489) |
| JsUpdate.CallsKeepRest | GeneWeave Design System/support.js:1477-1500 | script updates never touch html, template, fetch mark or streaming flags, and never drop a class |
| Runtime.Runtime.RunScript | GeneWeave Design System/support.js:1477-1500 | the re-entrant update on the mutable registry computes RunCall |
| Streaming.FetchedOnce | GeneWeave Design System/support.js:1422-1425 | in every run each name is fetched at most once, and never after it was marked as fetched by boot or by a streamed push |
| Streaming.AnsweredOnce | GeneWeave Design System/support.js:1422-1461 | in every run at most one reply arrives for a name |
| Streaming.FetchesExactly | GeneWeave Design System/support.js:1422-1425 | fetches are started exactly by the steps that ask for a name no earlier step has marked, in their order |
| Streaming.MarkedExactly | GeneWeave Design System/support.js:1422-1425 | a name is marked exactly by asking for it, by marking it, or by a streamed push (also lines 1517, 1555-1557) |
| Streaming.PendingExactly | GeneWeave Design System/support.js:1422-1461 | in every run a fetch is pending exactly if it was started and no reply has come |
| Streaming.LateReply | GeneWeave Design System/support.js:1452-1453 | a reply replaces neither html that is there nor a class that is there |
| Streaming.ReplyEffect | GeneWeave Design System/support.js:1438-1453 | a reply is used: its template becomes html and template of a name without html, its script runs for a name without class, with class, error, version and number as for any script; what is there stays |
| Streaming.RepliedHtmlStays | GeneWeave Design System/support.js:1452 | over every run, once a reply with a template has come the name has html, its own or the reply's, until html is pushed (also lines 1463-1476) |
| Streaming.AdoptEffect | GeneWeave Design System/support.js:1536-1543 | the boot document replaces html and template and runs its script, whatever is there |
| Streaming.PushedHtmlStays | GeneWeave Design System/support.js:1452 | over every run html that was pushed, and its template, stay until the next push of html to that name (also lines 1463-1476) |
| Streaming.RunShows | GeneWeave Design System/support.js:1463-1476 | over every run html and template of a name are the latest html written to it and the compile of the latest that compiles, with the writes read off the steps; the document has the streaming class exactly when html or script of some name is being streamed (also lines 1501-1515) |
| Streaming.FromTheStart | GeneWeave Design System/support.js:1372-1400 | all of these hold in every run from the start of the runtime (also lines 1422-1545) |
| Streaming.PushEffect | GeneWeave Design System/support.js:1501-1531 | a push sets the flag of its own kind only, a streamed script is not evaluated, and no other name's html or flag changes |
| Streaming.PushTells | GeneWeave Design System/support.js:1501-1531 | a push bumps the version of its name only, compiles html over the old template, and runs a complete script |
| Streaming.OtherUpdates | GeneWeave Design System/support.js:1463-1500 | html and script updates and new props that do not come as pushes (also lines 1532-1535) |
| Runtime.Runtime.constructor | GeneWeave Design System/support.js:1403-1411 | a new runtime has no entries, fetches or writes |
| Runtime.Runtime.Ensure | GeneWeave Design System/support.js:1422-1425 | a fetch is started exactly when the entry was not marked, and then it is |
| Runtime.Runtime.WriteHtml | GeneWeave Design System/support.js:1463-1476 | html is stored, and the template replaced if the html compiles |
| Runtime.Runtime.SetFlag | GeneWeave Design System/support.js:1501-1515 | the loop over the entries computes whether any is streaming |
| Runtime.Runtime.FindStreaming | GeneWeave Design System/support.js:1505-1512 | the loop over the entries, in any order, finds out whether one is streaming |
| Runtime.Runtime.RunScripts | GeneWeave Design System/support.js:1389 | the calls made during an evaluation or a notification run in order (also lines 1481) |
| Runtime.Runtime.Mark | GeneWeave Design System/support.js:1555-1557 | the entry is marked as fetched |
| Runtime.Runtime.Bump | GeneWeave Design System/support.js:1386-1390 | the version of the entry grows by one |
| Runtime.Runtime.DcUpdate | GeneWeave Design System/support.js:1516-1531 | a push changes the registry as Push says |
| Runtime.Runtime.OnReply | GeneWeave Design System/support.js:1438-1453 | a reply changes the registry as Reply says |
| Runtime.Runtime.AdoptParsed | GeneWeave Design System/support.js:1536-1543 | the boot document is taken over unconditionally |
| Loader.LoaderSafety | GeneWeave Design System/support.js:1072-1130 | in every run each url has one load at most; a module is evaluated at most once, only after its recorded predecessor has settled and behind it in the evaluation order; predecessors are earlier loads; the cache shows a result exactly for settled loads |
| Loader.CacheExactly | GeneWeave Design System/support.js:1083-1127 | in every run the cache says that a load went well exactly if it finished well, that it failed exactly if its code threw, its fetch failed or it gave up on Babel, and nothing before that |
| Loader.EvaluatedExactly | GeneWeave Design System/support.js:1083-1127 | the evaluation order is that of the evaluating steps |
| Loader.BabelExactly | GeneWeave Design System/support.js:1057-1070 | Babel is ready or failed exactly if it loaded or failed to load in some step |
| Loader.PresentExactly | GeneWeave Design System/support.js:1058 | whether Babel is on the page is what was said last, whatever the loader does |
| Loader.InvRun | GeneWeave Design System/support.js:1072-1130 | every state of every run satisfies the loader's invariant |
| Loader.LaterRun | GeneWeave Design System/support.js:1073-1076 | over every run a load keeps its url and its waits and only moves forward, and a settled load never changes (also lines 1099-1130) |
| Loader.NoDeadlock | GeneWeave Design System/support.js:1078-1082 | once Babel is decided some load can react exactly as long as one is unsettled |
| Loader.ReactionsEnd | GeneWeave Design System/support.js:1078-1130 | every reaction uses up work, and no work is left exactly when all loads are settled; so if fetches settle the loads settle: when no reaction is left, all are settled |
| LoadOrder.ListOrderInRun | GeneWeave Design System/support.js:614-618 | in every run in which Babel does not fail, still loading at the import included, the modules of an import list of fresh urls are evaluated in list order; without a plain script on each side of a jsx module even if it fails (also lines 1072-1130) |
| LoadOrder.ListOrderExactly | GeneWeave Design System/support.js:614-618 | list order holds in every run, failing ones included, exactly when Babel is there at the import or no jsx module stands between two plain scripts (also lines 1072-1130) |
| LoadOrder.OrderKept | GeneWeave Design System/support.js:614-618 | along any row of chained loads order is kept in every run in which Babel does not fail, and in every run if no jsx module stands between two plain scripts (also lines 1078-1082) |
| LoadOrder.OrderLost | GeneWeave Design System/support.js:1078-1082 | otherwise a failing Babel lets the right script be evaluated before the left one, by a run that is constructed (also lines 1115-1126) |
| LoadOrder.ChainOfFresh | GeneWeave Design System/support.js:614-618 | a list of fresh urls becomes a row of loads, each waiting for its left neighbour (also lines 1072-1082) |
| External.ExternalModules.LoadUrl | GeneWeave Design System/support.js:1057-1082 | a url is loaded at its first mention only, and waits for Babel and its predecessor (also lines 1128-1129) |
| External.ExternalModules.constructor | GeneWeave Design System/support.js:1052-1071 | a new loader has no loads and has not asked for Babel |
| External.ExternalModules.EnsureBabel | GeneWeave Design System/support.js:1057-1070 | Babel is asked for once, and not at all if it is on the page |
| External.ExternalModules.LoadAll | GeneWeave Design System/support.js:614-618 | the loop over the urls of one import computes Chain |
| External.ExternalModules.React | GeneWeave Design System/support.js:1082-1127 | a reaction moves one load on and stores the result of a settled one |
| Nesting.DepthIsBounded | GeneWeave Design System/support.js:939-954 | nested rendering ends for every finite set of components and all props, however cyclic its imports: no name stands twice on a way down, so the page is at most as deep as there are components (also lines 999-1003) |
| Nesting.CyclesAreGenuine | GeneWeave Design System/support.js:939-954 | every circular import that is reported is a simple cycle of imports through the component (also lines 999-1003) |
| Nesting.ReportedExactly | GeneWeave Design System/support.js:939-954 | a cycle is reported exactly when, without the check, some way down from the root repeats a name; otherwise the check has changed nothing and the page is the full unfolding (also lines 999-1003) |
| Nesting.AcyclicIsFull | GeneWeave Design System/support.js:939-954 | if no imports form a cycle the page is the full unfolding without any error in it (also lines 999-1003) |
| Nesting.StaticExactly | GeneWeave Design System/support.js:939-954 | with imports that do not depend on props a cycle is reported exactly when rendering without the check would not end (also lines 999-1003) |
| Nesting.MisjudgedExactly | GeneWeave Design System/support.js:939-954 | with any imports, also ones that depend on props, a cycle is reported exactly if rendering would not end, unless the page ends and yet repeats a name on some way down (also lines 999-1003) |
| Nesting.FiniteRecursionIsReported | GeneWeave Design System/support.js:939-954 | with imports that depend on props, recursion that would end is reported too: a component that counts down to zero |
| TemplateMeaning.CompiledMeaning | GeneWeave Design System/support.js:436-565 | for every tree of elements, holes, loops and conditionals, running the compiled closure on any object of values gives the direct meaning of the tree: names looked up, holes filled in from left to right, one copy of a loop body per item with the loop's names bound (also lines 371-380, 688-713) |
| TemplateMeaning.CompiledAll | GeneWeave Design System/support.js:450-454 | children that compile to nothing are dropped once, and the keys of the others count only what is left |
| TemplateMeaning.WholeHoleExactly | GeneWeave Design System/support.js:371-375 | the whole-attribute match finds a hole with blanks around it, and only that |
| TemplateMeaning.VanishesExactly | GeneWeave Design System/support.js:477-479 | dropped are exactly comments and blank texts without a plain space |
| TemplateShows.ExpressionShows | GeneWeave Design System/support.js:480-515 | from end to end: a text hole with an expression in it shows the meaning of the expression: a value as itself, an element or list spliced in, null and booleans not at all, a missing value as a notice while streaming or in the editor (also lines 203-292) |
| TemplateShows.TextShows | GeneWeave Design System/support.js:480-515 | a text with holes renders part by part, literals as they are and each hole by the value of its text |
| TemplateShows.LiteralShows | GeneWeave Design System/support.js:477-479 | a text without holes is itself, or is dropped if it is blank without a plain space |
| TemplateShows.WholeAttrValue | GeneWeave Design System/support.js:371-375 | an attribute that is one hole has the value of the expression itself |
| TemplateShows.MixedAttrValue | GeneWeave Design System/support.js:376-379 | any other attribute with holes is a string, in which null and undefined add nothing |
| TemplateShows.LiteralAttrValue | GeneWeave Design System/support.js:380 | without a hole an attribute is its own text |
| TemplateShows.IfShows | GeneWeave Design System/support.js:551-565 | a conditional shows its children exactly if its value is truthy, with the hint standing in for a missing value while the page streams |
| TemplateShows.ForShows | GeneWeave Design System/support.js:516-550 | a loop renders one copy of its body an item, with the item and its place spread into the values; without a list none, or as many as hinted while the page streams |
| TemplateShows.ElementShows | GeneWeave Design System/support.js:690-713 | an element keeps number and tag and has its attributes and children in order |
| TemplateMeaning.InnerStands | GeneWeave Design System/support.js:540-541 | the values of a loop body, made by spreading objects, bind the item and its place and leave all other names as they were |
| Holes.MapIsPieces | GeneWeave Design System/support.js:376-379 | splitting a text at compile time and mapping over its parts at render time gives its literals and holes as they come, from left to right (also lines 480-483) |
| PlainObjects.ObjectsAreLawful | GeneWeave Design System/support.js:541 | objects read back what was spread into them, which is the law the results on templates ask for (also lines 984) |
| PlainObjects.OthersAreNot | GeneWeave Design System/support.js:541 | strings and null do not, so the law is asked of objects only |
| TemplateMeaning.ReadsOnlyHeads | GeneWeave Design System/support.js:203-292 | evaluating a text reads no value but those of its head names |
| TemplateMeaning.DependsOnFree | GeneWeave Design System/support.js:516-565 | the meaning of a template depends on its free names only, where a loop binds its item name and `$index` in its body and nowhere else |
| TemplateMeaning.CompiledDependsOnFree | GeneWeave Design System/support.js:516-565 | so does what the compiled template renders, whatever else the two objects of values hold |
| TemplateMeaning.LoopNameIsLocal | GeneWeave Design System/support.js:518 | an outside value of the loop's name does not show in what the compiled loop renders, except through the list (also lines 540-547) |
| TemplateMeaning.StampIsPreorder | GeneWeave Design System/support.js:440-446 | stamping gives the elements in document order exactly the numbers from 0 to N-1 |
| TemplateMeaning.EmittedFromSource | GeneWeave Design System/support.js:690 | every rendered element carries number and tag of a template element (also lines 697-712) |
| TemplateMeaning.RenderedNumbers | GeneWeave Design System/support.js:436-449 | after stamping, whatever the values, each rendered number is that of one template element only (also lines 690-712) |
| Holes.SplitIsSplit | GeneWeave Design System/support.js:376-379 | putting the braces back rebuilds the text; literals before holes hold no `{{`, holes are not empty and end at the first possible braces (also lines 480) |
| Holes.SplitUnique | GeneWeave Design System/support.js:376-379 | there is only one such split (also lines 480) |
| Holes.SplitParts | GeneWeave Design System/support.js:376-379 | holes are not empty and only the last literal may contain `{{` (also lines 480) |
| AttrNames.HyphenateRoundTrip | GeneWeave Design System/support.js:345-348 | decoding undoes encoding exactly for names without a hyphen followed by a small letter (also lines 357-359) |
| AttrNames.CamelSurvivesHtml | GeneWeave Design System/support.js:337-348 | every camel-case attribute name survives lower-casing and comes back as written (also lines 357-359, 390-392) |
| AttrNames.CamelExactly | GeneWeave Design System/support.js:337 | the pattern picks out exactly small letters, one capital, and letters or digits |
| AttrNames.LowerAllExactly | GeneWeave Design System/support.js:390-392 | what the HTML parser leaves of a name: capitals become their small letters place by place and nothing else changes |
| ContentKey.HashUnits | GeneWeave Design System/support.js:678-679 | the signed 32-bit loop equals 5381*33^n plus the sum of c_i*33^(n-1-i), modulo 2^32 |
| ContentKey.MakeKey | GeneWeave Design System/support.js:672-681 | the key is length, dot and hash in base 36 |
| ContentKey.KeyExactly | GeneWeave Design System/support.js:680 | two content keys are equal exactly when lengths and hashes are equal |
| ContentKey.KeyExamples | GeneWeave Design System/support.js:672-681 | the keys of nothing and of one letter, digit by digit |
| Digits.NumeralInjective | GeneWeave Design System/support.js:680 | different numbers are written differently (also lines 1363) |
| Digits.NumeralValue | GeneWeave Design System/support.js:680 | a numeral has the value of its number and no leading zero (also lines 1363) |
| PseudoSheet.Sheet.ClassFor | GeneWeave Design System/support.js:1355-1368 | a known key keeps its class; a new key gets the next class and its own rule |
| PseudoSheet.Sheet.Serve | GeneWeave Design System/support.js:1351-1368 | over any sequence of requests equal keys get equal classes and different keys different ones, known keys keep theirs, and the i-th new key owns the next class and rule but i |
| PseudoSheet.Sheet.constructor | GeneWeave Design System/support.js:1351-1354 | a new sheet has no rules |
| PseudoSheet.DistinctClasses | GeneWeave Design System/support.js:1355-1368 | two keys share a class exactly when they are the same key |
| PseudoSheet.RuleColons | GeneWeave Design System/support.js:1364-1365 | rules of `before` and `after` take two colons, all others one |
| PseudoSheet.NamesKeptApartExactly | GeneWeave Design System/support.js:1356 | two pseudo-class names never share a key, whatever the styles, exactly if neither is the other followed by a bar |
| PseudoSheet.SharedKeyExactly | GeneWeave Design System/support.js:1356 | two requests share a key exactly if they are the same or one name and style absorb the other's: name, bar, surplus on one side, surplus, bar, style on the other |
| PseudoSheet.Collision | GeneWeave Design System/support.js:1356 | if one name is the other followed by a bar, each style of the longer one collides with exactly one style of the shorter one, which is given |
| PseudoSheet.SharedRuleExactly | GeneWeave Design System/support.js:1355-1368 | in a valid sheet two served requests share class and rule exactly in those cases |
| Fusion.Accumulate | examples/13-memory-advanced.ts:267-278 | the loops give every id its reciprocal ranks plus half a reciprocal rank for each graph node that mentions it |
| Fusion.SortInOrder | examples/13-memory-advanced.ts:280-281 | the sort is a permutation by descending score with ties in insertion order |
| Fusion.Fuse | examples/13-memory-advanced.ts:267-282 | fusion returns exactly the ids found, by descending score, ties by first appearance |
| Fusion.ScoredOfUnique | examples/13-memory-advanced.ts:269-282 | with unique ids the ids found are exactly the vector results and each score is the reciprocal rank plus the graph boosts |
| Fusion.AddNode | examples/13-memory-advanced.ts:274-277 | one graph node gives its weight to every entry that mentions it |
| Fusion.PlacesByScore | examples/13-memory-advanced.ts:280-282 | in the fused list the higher score comes first and equal scores stand in vector order |
| Fusion.AheadInFused | examples/13-memory-advanced.ts:267-282 | in the fused list an entry ahead by vector whose mentions include the other's comes first |
| Fusion.BoostInFused | examples/13-memory-advanced.ts:266-282 | in the fused list an entry at rank r that only the top node mentions stands before an unmentioned rank-0 entry exactly for r below 61; at 61 scores are equal and the vector order decides |
| KeyStore.SpliceCounting | examples/13-encryption-phase1.ts:85-94 | the backwards splice loop keeps the other tenants' records in order and counts what it removes |
| KeyStore.Splice | examples/14-encryption-phase2.ts:102-104 | so does the loop without a count |
| KeyStore.SplicesExactly | examples/13-encryption-phase1.ts:85-94 | from any place down both loops keep the others' records in order, and the count is that of the tenant's records |
| KeyStore.InMemoryStore.DeleteAllPhase1 | examples/13-encryption-phase1.ts:84-96 | deletion as the first example writes it: count while splicing |
| KeyStore.InMemoryStore.DeleteAllPhase2 | examples/14-encryption-phase2.ts:96-106 | deletion as the second example writes it: count first, then splice |
| KeyStore.InMemoryStore.constructor | examples/13-encryption-phase1.ts:25-29 | a new store is empty |
| KeyStore.InMemoryStore.Insert | examples/13-encryption-phase1.ts:40-42 | the record goes to the end of its list and nothing else changes (also lines 54-56, 73-75) |
| KeyStore.InMemoryStore.UpdateStatus | examples/13-encryption-phase1.ts:57-61 | the first record with the id gets the status and its time, where a blind-index key always takes it as revocation time (also lines 43-47, 76-80) |
| KeyStore.InMemoryStore.Perform | examples/13-encryption-phase1.ts:30-97 | any operation of either store changes the fields and answers as its step says |
| KeyStore.InMemoryStore.Serve | examples/13-encryption-phase1.ts:30-97 | any sequence of operations changes the fields and answers as its run says |
| KeyStoreRuns.RunsAgree | examples/14-encryption-phase2.ts:34-107 | no sequence of operations tells the two stores apart: the same answers and the same state |
| KeyStoreRuns.PolicyExactly | examples/13-encryption-phase1.ts:31-36 | over every sequence of operations a tenant's policy is the one it set last, unless it deleted it since (also lines 81-83) |
| KeyStoreRuns.InsertedIsListed | examples/13-encryption-phase1.ts:37-42 | an inserted record is listed at the end of its tenant's list of its kind and nowhere else (also lines 51-56, 70-75) |
| KeyStoreRuns.ListedExactly | examples/13-encryption-phase1.ts:37-39 | a record is listed for its tenant and for no other (also lines 51-53, 70-72) |
| KeyStoreRuns.LookupExactly | examples/13-encryption-phase1.ts:48-50 | a lookup by id answers with the tenant's record that has it, and with nothing if there is none (also lines 62-64) |
| KeyStoreRuns.FindOfExactly | examples/13-encryption-phase1.ts:48-50 | the record found is the tenant's first one with the id (also lines 62-64) |
| KeyStoreRuns.UpdateEffect | examples/13-encryption-phase1.ts:43-47 | a status update changes the first record with the id only: its status, and the time that goes with the new status or the kind of key (also lines 57-61, 76-80) |
| KeyStoreRuns.DeletionsAgree | examples/14-encryption-phase2.ts:96-106 | the two deletions leave the others' records in order and report the numbers removed |
| KeyStoreRuns.DeletionAnswer | examples/13-encryption-phase1.ts:84-96 | a deletion leaves the others' records in order and answers with the numbers of the tenant's records of each kind |
| KeyStoreRuns.TenantsApart | examples/13-encryption-phase1.ts:30-97 | if every id belongs to one tenant, over every sequence of operations what concerns a tenant and every answer it gets is what a store with its records alone gives for its operations alone |
| KeyStoreRuns.OthersNeverShow | examples/13-encryption-phase1.ts:30-97 | operations on other tenants' records, inserts included, never change a tenant's policy, lists or largest active epoch |
| KeyStoreRuns.UniqueIdsHaveOwners | examples/13-encryption-phase1.ts:40-80 | globally unique ids give every id one tenant, so that these results apply |
| KeyStoreRuns.UpdateIsolated | examples/13-encryption-phase1.ts:57-61 | with any ids, a status update leaves a tenant's keys alone exactly when the first record with the id is not that tenant's or stays as it is (also lines 43-47) |
| KeyStoreRuns.MaxEpochExactly | examples/13-encryption-phase1.ts:65-69 | in either store the epoch is absent exactly without an active key and is otherwise the largest of an active key |
| KeyStoreRuns.EpochAnswer | examples/13-encryption-phase1.ts:65-69 | so either store answers the question for the epoch |
| KeyStoreRuns.QuestionsKeep | examples/13-encryption-phase1.ts:31-33 | questions change nothing in the store (also lines 37-39, 48-53, 62-72) |

## Left out

- React, the DOM, `fetch`, Babel and `new Function`: environment steps and parameters; a render that React throws away is modelled as a render without a commit.
- Strings are sequences of Unicode scalar values; text with unpaired surrogates is not modelled, and only `ContentKey` counts 16-bit code units.
- Property reads and the two equalities are pure: getters that throw or change something, and `toString` of keys, are not modelled.
- `Number` of a matched literal is an abstract function of its text, so rounding does not appear.
- Lifecycle.Host: author code that assigns `this.state` directly is not modelled, nor are the fields of instances that were swapped out; `setState` inside a hook appears as its own step next to the hook.
- Lifecycle.ShallowEqualExact: props are compared by own keys; a key that the other props lack but inherit from the object prototype, such as `toString`, reads as undefined here.
- Streaming.Next: subscribers that `bump` notifies are steps of their own, except for script updates, where re-entrance is modelled; `propsMeta`, `preview` and prop overrides appear only as a version bump.
- Streaming.Reply: the boot re-fetch of the root page is an unconditional html write and counts as a push, as in the code.
- Loader.Next: `onResolved` is taken not to throw, and evaluated modules are opaque, including exports and new globals; Babel appearing on or vanishing from the page is a free step.
- Resolving exports and globals of loaded modules, and polling for globals with timers: no protocol beyond a retry.
- TemplateMeaning.CompiledMeaning: component imports, external imports, helmets and `props.children` are not part of template meaning; prop renaming and the special props `style`, `value` and `checked` are one abstract function, the `className` that pseudo-class styles add to an element is left out, and keys do not carry the content key.
- `TemplateMeaning.Stamp`: numbering returns a new tree instead of writing attributes in place.
- Encoding of a whole HTML text (`encodeCase`) is modelled for attribute names only: its pattern can also match inside holes.
- Nesting.Render: error states inside the tree and logic are left to the component model; a reference carries name and props only.
- PseudoSheet.Sheet.ClassFor: `insertRule` is taken to succeed.
- Fusion.Accumulate: scores are exact reals, and the insertion-ordered map of the source is a sequence of keys beside a map.
- KeyStore.InMemoryStore: records are values, so a record shared with the caller is not modelled. The source writes each operation once per list; here the list is a parameter, and lookups by id exist for key-encryption and data keys only. Operations whose text is the same in both files are modelled once; deletion and the largest active epoch, which are written differently, twice.
- Placeholders, print styles, canvas background, props metadata and messages to the host page: no logic worth a proof.
