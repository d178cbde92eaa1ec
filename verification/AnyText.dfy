/**
 What the evaluator makes of any text, malformed ones included: what a path reads, and which texts
 have no value at all. The steps of a path are described as they are written, and not as they are walked.
 */
module AnyText {
  import opened Prelude
  import opened Text
  import opened Scan
  import opened Evaluator
  import opened Syntax
  import opened RoundTrip

  // ---------------------------------------------------------------- texts around the path

  /** A blank text has no value. */
  lemma BlankHasNone<V>(w: World<V>, look: Lookup<V>, src: string)
    requires AllBlank(src)
    ensures Resolve(w, look, src) == w.undef
  {
    TrimBlank(src);
  }

  /** The first round bracket of the text is closed by its last character and not before. */
  ghost predicate FirstClosesLast(t: string) {
    && |t| >= 2 && t[0] == '(' && t[|t| - 1] == ')'
    && forall k | 0 < k < |t| :: t[k - 1] == ')' ==> Nest(t[..k], '(', ')') != 0
  }

  /** Brackets around any text, balanced or not, are taken off. */
  lemma BracketsComeOff<V>(w: World<V>, look: Lookup<V>, inner: string)
    requires FirstClosesLast("(" + inner + ")")
    ensures Resolve(w, look, "(" + inner + ")") == Resolve(w, look, inner)
  {
    var t := "(" + inner + ")";
    TrimSolid(t);
    assert t[1..|t| - 1] == inner;
  }

  /** The leftmost operator outside brackets splits any text that is not in brackets itself. */
  lemma OperatorSplits<V>(w: World<V>, look: Lookup<V>, t: string, i: nat)
    requires Solid(t) && !FirstClosesLast(t)
    requires TopEqAt(t, i) && forall j | 0 <= j < i :: !TopEqAt(t, j)
    ensures Resolve(w, look, t) ==
            w.Compare(OpAt(t, i), Resolve(w, look, t[..i]), Resolve(w, look, t[i + |OpAt(t, i)|..]))
  {
    TrimSolid(t);
    FirstTopEqUnique(t, i);
  }

  /** Without brackets around it and without an operator a text that starts with `!` is a negation. */
  lemma NegationNegates<V>(w: World<V>, look: Lookup<V>, rest: string)
    requires Solid("!" + rest) && EqFree("!" + rest)
    ensures Resolve(w, look, "!" + rest) == w.bool_(!w.truthy(Resolve(w, look, rest)))
  {
    ResolveNot(w, look, "!" + rest);
    assert ("!" + rest)[1..] == rest;
  }

  /** A number has an optional minus, digits, and perhaps a point with digits on both sides. */
  lemma NumberForm(sign: string, whole: string, frac: string)
    requires sign == "" || sign == "-"
    requires IsDigits(whole) && (frac == "" || (frac[0] == '.' && IsDigits(frac[1..])))
    ensures IsNumber(sign + whole + frac)
  {
    var s := sign + whole + frac;
    var t := whole + frac;
    if sign == "-" { assert s[1..] == t; } else { assert s == t; }
    RunLengthConcat(whole, frac, IsDigit);
    assert t[|whole|..] == frac;
    if frac != "" { assert t[|whole| + 1..] == frac[1..]; }
  }

  lemma UnsignedParts(t: string) returns (whole: string, frac: string)
    requires var n := RunLength(t, IsDigit); n > 0 && (n == |t| || (t[n] == '.' && IsDigits(t[n + 1..])))
    ensures t == whole + frac
    ensures whole != "" && (forall i | 0 <= i < |whole| :: IsDigit(whole[i]))
    ensures frac == "" || (frac[0] == '.' && |frac| > 1 && forall i | 1 <= i < |frac| :: IsDigit(frac[i]))
  {
    var n := RunLength(t, IsDigit);
    whole, frac := t[..n], t[n..];
    RunMembers(t, IsDigit);
    if n < |t| {
      RunMembers(t[n + 1..], IsDigit);
      forall i | 1 <= i < |frac| ensures IsDigit(frac[i]) { assert frac[i] == t[n + 1..][i - 1]; }
    }
  }

  /** And every number is of that form. */
  lemma NumberParts(s: string) returns (sign: string, whole: string, frac: string)
    requires IsNumber(s)
    ensures s == sign + whole + frac && (sign == "" || sign == "-")
    ensures whole != "" && (forall i | 0 <= i < |whole| :: IsDigit(whole[i]))
    ensures frac == "" || (frac[0] == '.' && |frac| > 1 && forall i | 1 <= i < |frac| :: IsDigit(frac[i]))
  {
    if s[0] == '-' {
      sign := "-";
      whole, frac := UnsignedParts(s[1..]);
      assert s == "-" + s[1..];
    } else {
      sign := "";
      whole, frac := UnsignedParts(s);
    }
  }

  // ---------------------------------------------------------------- steps as they are written

  datatype Step = Key(key: string) | Computed(text: string)

  /** Square brackets in `t` close each other, so that the next one to close ends the step. */
  ghost predicate SquareClosed(t: string) {
    Nest(t, '[', ']') == 0 && forall i | 0 <= i <= |t| :: Nest(t[..i], '[', ']') >= 0
  }

  /** A key is a whole identifier or a whole run of digits; what is computed may be any text. */
  ghost predicate StepOk(s: Step) {
    match s
    case Key(k) => IsIdent(k) || IsDigits(k)
    case Computed(t) => SquareClosed(t)
  }

  function WriteStep(s: Step): string {
    match s
    case Key(k) => "." + k
    case Computed(t) => "[" + (t + "]")
  }

  function Written(steps: seq<Step>): string {
    if steps == [] then "" else WriteStep(steps[0]) + Written(steps[1..])
  }

  ghost predicate StepsOk(steps: seq<Step>) {
    forall i | 0 <= i < |steps| :: StepOk(steps[i])
  }

  function KeyValue<V>(w: World<V>, look: Lookup<V>, s: Step): V {
    match s
    case Key(k) => w.text(k)
    case Computed(text) => Resolve(w, look, text)
  }

  /** The guarded reads of the steps, one after the other. */
  function Reads<V>(w: World<V>, look: Lookup<V>, steps: seq<Step>, v: V): V
    decreases |steps|
  {
    if steps == [] then v else Reads(w, look, steps[1..], w.Read(v, KeyValue(w, look, steps[0])))
  }

  /** The text is a name followed to its end by steps. */
  ghost predicate IsPath(t: string, name: string, steps: seq<Step>) {
    IsIdent(name) && StepsOk(steps) && t == name + Written(steps)
  }

  // ---------------------------------------------------------------- reading the steps back

  /** The steps of a text from its start to its end, if it consists of steps. */
  function ParseSteps(rest: string): Option<seq<Step>>
    decreases |rest|
  {
    if rest == "" then Some([])
    else if rest[0] == '.' then
      var n := KeyLength(rest[1..]);
      if n == 0 then None else Prepend(Key(rest[1..1 + n]), ParseSteps(rest[1 + n..]))
    else if rest[0] == '[' then
      var close := FindClose(rest[1..], 1);
      if close.None? then None
      else Prepend(Computed(rest[1..close.value + 1]), ParseSteps(rest[close.value + 2..]))
    else None
  }

  function Prepend(s: Step, rest: Option<seq<Step>>): Option<seq<Step>> {
    if rest.None? then None else Some([s] + rest.value)
  }

  lemma WrittenCons(s: Step, rest: seq<Step>)
    ensures Written([s] + rest) == WriteStep(s) + Written(rest)
  {
    assert ([s] + rest)[1..] == rest;
  }

  lemma KeyIsOk(s: string)
    requires KeyLength(s) > 0
    ensures StepOk(Key(s[..KeyLength(s)]))
  {
    var n := KeyLength(s);
    if IdentLength(s) > 0 {
      RunPrefix(s[1..], IsIdentPart);
      assert s[..n][1..] == s[1..][..n - 1];
    } else {
      RunPrefix(s, IsDigit);
    }
  }

  lemma {:induction false} RunPrefix(s: string, p: char -> bool)
    ensures RunLength(s[..RunLength(s, p)], p) == RunLength(s, p)
    decreases |s|
  {
    var n := RunLength(s, p);
    if n > 0 {
      RunPrefix(s[1..], p);
      assert s[..n][1..] == s[1..][..n - 1];
    }
  }

  lemma ClosedBeforeBracket(t: string, k: nat)
    requires FindClose(t, 1) == Some(k)
    ensures SquareClosed(t[..k])
  {
    FindCloseIsFirst(t, 1, k);
    assert t[..k + 1][..k] == t[..k];
    forall i | 0 <= i <= k ensures Nest(t[..k][..i], '[', ']') >= 0 {
      assert t[..k][..i] == t[..i];
    }
  }

  lemma FirstKey(rest: string) returns (k: string, tail: string)
    requires rest != "" && rest[0] == '.' && ParseSteps(rest).Some?
    ensures StepOk(Key(k)) && rest == "." + k + tail && |tail| < |rest|
    ensures ParseSteps(rest) == Prepend(Key(k), ParseSteps(tail))
  {
    var n := KeyLength(rest[1..]);
    k, tail := rest[1..1 + n], rest[1 + n..];
    KeyIsOk(rest[1..]);
    assert rest[1..][..n] == k;
  }

  lemma FirstComputed(rest: string) returns (c: string, tail: string)
    requires rest != "" && rest[0] == '[' && ParseSteps(rest).Some?
    ensures StepOk(Computed(c)) && rest == "[" + (c + "]") + tail && |tail| < |rest|
    ensures ParseSteps(rest) == Prepend(Computed(c), ParseSteps(tail))
  {
    var k := FindClose(rest[1..], 1).value;
    c, tail := rest[1..k + 1], rest[k + 2..];
    ClosedBeforeBracket(rest[1..], k);
    assert rest[1..][..k] == c;
    FourParts(rest, k);
  }

  lemma FourParts(t: string, k: nat)
    requires k + 1 < |t|
    ensures t == [t[0]] + (t[1..k + 1] + [t[k + 1]]) + t[k + 2..]
  {
  }

  /** What was parsed is what was written. */
  lemma {:induction false} ParsedIsWritten(rest: string)
    requires ParseSteps(rest).Some?
    ensures var steps := ParseSteps(rest).value; StepsOk(steps) && Written(steps) == rest
    decreases |rest|
  {
    if rest != "" {
      if rest[0] == '.' {
        var k, tail := FirstKey(rest);
        ParsedIsWritten(tail);
        WrittenCons(Key(k), ParseSteps(tail).value);
      } else {
        var c, tail := FirstComputed(rest);
        ParsedIsWritten(tail);
        WrittenCons(Computed(c), ParseSteps(tail).value);
      }
    }
  }

  lemma WrittenStart(steps: seq<Step>)
    ensures Written(steps) == "" || Written(steps)[0] == '.' || Written(steps)[0] == '['
  {
  }

  lemma SquareBracket(t: string, rest: string)
    requires SquareClosed(t)
    ensures FindClose(t + "]" + rest, 1) == Some(|t|)
  {
    var s := t + "]" + rest;
    forall m | 0 <= m <= |t| ensures Nest(s[..m], '[', ']') >= 0 {
      assert s[..m] == t[..m];
    }
    assert s[..|t| + 1] == t + "]";
    NestConcat(t, "]", '[', ']');
    assert Nest("]", '[', ']') == -1 by { assert "]"[..0] == ""; }
    FindCloseIsFirst(s, 1, |t|);
  }

  lemma ParseKey(k: string, rest: string)
    requires StepOk(Key(k)) && (rest == "" || !IsIdentPart(rest[0]))
    ensures ParseSteps("." + k + rest) == Prepend(Key(k), ParseSteps(rest))
  {
    var t := "." + k + rest;
    assert t[1..] == k + rest;
    KeyLengthConcat(k, rest);
    assert t[1..1 + |k|] == k && t[1 + |k|..] == rest;
  }

  lemma ParseComputed(c: string, rest: string)
    requires StepOk(Computed(c))
    ensures ParseSteps("[" + (c + "]") + rest) == Prepend(Computed(c), ParseSteps(rest))
  {
    var t := "[" + (c + "]") + rest;
    assert t[1..] == c + "]" + rest;
    SquareBracket(c, rest);
    assert t[1..|c| + 1] == c && t[|c| + 2..] == rest;
  }

  lemma ParseOne(s: Step, rest: string)
    requires StepOk(s) && (rest == "" || !IsIdentPart(rest[0]))
    ensures ParseSteps(WriteStep(s) + rest) == Prepend(s, ParseSteps(rest))
  {
    if s.Key? { ParseKey(s.key, rest); } else { ParseComputed(s.text, rest); }
  }

  lemma ParsedCons(s: Step, rest: seq<Step>)
    requires StepOk(s) && ParseSteps(Written(rest)) == Some(rest)
    ensures ParseSteps(Written([s] + rest)) == Some([s] + rest)
  {
    WrittenCons(s, rest);
    WrittenStart(rest);
    ParseOne(s, Written(rest));
  }

  /** And what was written is parsed. */
  lemma {:induction false} WrittenIsParsed(steps: seq<Step>)
    requires StepsOk(steps)
    ensures ParseSteps(Written(steps)) == Some(steps)
    decreases |steps|
  {
    if steps != [] {
      WrittenIsParsed(steps[1..]);
      ParsedCons(steps[0], steps[1..]);
      assert [steps[0]] + steps[1..] == steps;
    }
  }

  lemma WalkKey<V>(w: World<V>, look: Lookup<V>, rest: string, cur: V) returns (k: string, tail: string)
    requires rest != "" && rest[0] == '.' && KeyLength(rest[1..]) > 0
    ensures |tail| < |rest| && ParseSteps(rest) == Prepend(Key(k), ParseSteps(tail))
    ensures PathFrom(w, look, rest, cur) == PathFrom(w, look, tail, w.Read(cur, KeyValue(w, look, Key(k))))
  {
    var n := KeyLength(rest[1..]);
    k, tail := rest[1..1 + n], rest[1 + n..];
  }

  lemma WalkComputed<V>(w: World<V>, look: Lookup<V>, rest: string, cur: V) returns (c: string, tail: string)
    requires rest != "" && rest[0] == '[' && FindClose(rest[1..], 1).Some?
    ensures |tail| < |rest| && ParseSteps(rest) == Prepend(Computed(c), ParseSteps(tail))
    ensures PathFrom(w, look, rest, cur) == PathFrom(w, look, tail, w.Read(cur, KeyValue(w, look, Computed(c))))
  {
    var k := FindClose(rest[1..], 1).value;
    c, tail := rest[1..k + 1], rest[k + 2..];
  }

  ghost predicate WalksAsParsed<V>(w: World<V>, look: Lookup<V>, rest: string, cur: V) {
    PathFrom(w, look, rest, cur) ==
    match ParseSteps(rest)
    case Some(steps) => Reads(w, look, steps, cur)
    case None => w.undef
  }

  lemma WalkCons<V>(w: World<V>, look: Lookup<V>, s: Step, rest: string, tail: string, cur: V)
    requires ParseSteps(rest) == Prepend(s, ParseSteps(tail))
    requires PathFrom(w, look, rest, cur) == PathFrom(w, look, tail, w.Read(cur, KeyValue(w, look, s)))
    requires WalksAsParsed(w, look, tail, w.Read(cur, KeyValue(w, look, s)))
    ensures WalksAsParsed(w, look, rest, cur)
  {
    if ParseSteps(tail).Some? { ReadsCons(w, look, s, ParseSteps(tail).value, cur); }
  }

  /** The walk reads what can be parsed, and has no value for anything else. */
  lemma {:induction false} WalkIsParse<V>(w: World<V>, look: Lookup<V>, rest: string, cur: V)
    ensures WalksAsParsed(w, look, rest, cur)
    decreases |rest|
  {
    if rest != "" && rest[0] == '.' && KeyLength(rest[1..]) > 0 {
      var k, tail := WalkKey(w, look, rest, cur);
      WalkIsParse(w, look, tail, w.Read(cur, KeyValue(w, look, Key(k))));
      WalkCons(w, look, Key(k), rest, tail, cur);
    } else if rest != "" && rest[0] == '[' && FindClose(rest[1..], 1).Some? {
      var c, tail := WalkComputed(w, look, rest, cur);
      WalkIsParse(w, look, tail, w.Read(cur, KeyValue(w, look, Computed(c))));
      WalkCons(w, look, Computed(c), rest, tail, cur);
    }
  }

  lemma ReadsCons<V>(w: World<V>, look: Lookup<V>, s: Step, rest: seq<Step>, v: V)
    ensures Reads(w, look, [s] + rest, v) == Reads(w, look, rest, w.Read(v, KeyValue(w, look, s)))
  {
    assert ([s] + rest)[1..] == rest;
  }

  // ---------------------------------------------------------------- paths, and what is not one

  lemma NameOfPath(t: string, name: string, steps: seq<Step>)
    requires IsPath(t, name, steps)
    ensures IdentLength(t) == |name| && t[..|name|] == name && t[|name|..] == Written(steps)
  {
    WrittenStart(steps);
    IdentLengthConcat(name, Written(steps));
  }

  lemma HeadIsIdent(t: string)
    requires IdentLength(t) > 0
    ensures IsIdent(t[..IdentLength(t)])
  {
    var n := IdentLength(t);
    RunPrefix(t[1..], IsIdentPart);
    assert t[..n][1..] == t[1..][..n - 1];
  }

  lemma HeadAndRest(t: string) returns (name: string, rest: string)
    requires IdentLength(t) > 0
    ensures IsIdent(name) && t == name + rest && name == t[..IdentLength(t)] && rest == t[IdentLength(t)..]
  {
    HeadIsIdent(t);
    name, rest := t[..IdentLength(t)], t[IdentLength(t)..];
  }

  /** A name followed to its end by steps has the value of the guarded reads of the steps, in order. */
  lemma PathReads<V>(w: World<V>, look: Lookup<V>, t: string, name: string, steps: seq<Step>)
    requires IsPath(t, name, steps)
    ensures ResolvePath(w, look, t) == Reads(w, look, steps, look(name))
  {
    NameOfPath(t, name, steps);
    WrittenIsParsed(steps);
    WalkIsParse(w, look, Written(steps), look(name));
  }

  /**
   Any other text has none: no name in front, a dot without a key, a bracket that is never closed, or
   anything else behind a step.
   */
  lemma NoPathHasNone<V>(w: World<V>, look: Lookup<V>, t: string)
    requires forall name, steps :: !IsPath(t, name, steps)
    ensures ResolvePath(w, look, t) == w.undef
  {
    if IdentLength(t) > 0 {
      var name, rest := HeadAndRest(t);
      WalkIsParse(w, look, rest, look(name));
      if ParseSteps(rest).Some? {
        ParsedIsWritten(rest);
        assert IsPath(t, name, ParseSteps(rest).value);
      }
    }
  }

  /** A text without brackets around it, operator, negation, reserved word, number or quotes. */
  ghost predicate IsPlain(t: string) {
    && Solid(t) && EqFree(t) && !FirstClosesLast(t) && t[0] != '!'
    && t !in RESERVED && !IsNumber(t) && !IsQuoted(t)
  }

  lemma PlainIsPath<V>(w: World<V>, look: Lookup<V>, t: string)
    requires IsPlain(t)
    ensures Resolve(w, look, t) == ResolvePath(w, look, t)
  {
    TrimSolid(t);
    NoOperator(t);
    assert RESERVED[0] == "true" && RESERVED[1] == "false" && RESERVED[2] == "null" && RESERVED[3] == "undefined";
    assert t != "true" && t != "false" && t != "null" && t != "undefined";
  }

  /** So each such text, with blanks around it or without, is a path with its value, or has none. */
  lemma PlainExactly<V>(w: World<V>, look: Lookup<V>, pre: string, t: string, post: string)
    requires AllBlank(pre) && IsPlain(t) && AllBlank(post)
    ensures forall name, steps | IsPath(t, name, steps) ::
              Resolve(w, look, pre + t + post) == Reads(w, look, steps, look(name))
    ensures (forall name, steps :: !IsPath(t, name, steps)) ==> Resolve(w, look, pre + t + post) == w.undef
  {
    ResolvePadded(w, look, pre, t, post);
    PlainIsPath(w, look, t);
    forall name, steps | IsPath(t, name, steps)
      ensures Resolve(w, look, pre + t + post) == Reads(w, look, steps, look(name))
    {
      PathReads(w, look, t, name, steps);
    }
    if forall name, steps :: !IsPath(t, name, steps) {
      NoPathHasNone(w, look, t);
    }
  }

  lemma NotPath(name: string, rest: string, n: string, ss: seq<Step>)
    requires IsIdent(name) && rest != "" && !IsIdentPart(rest[0]) && ParseSteps(rest).None?
    ensures !IsPath(name + rest, n, ss)
  {
    IdentLengthConcat(name, rest);
    assert (name + rest)[|name|..] == rest;
    if IsPath(name + rest, n, ss) {
      NameOfPath(name + rest, n, ss);
      WrittenIsParsed(ss);
    }
  }

  /** Text behind a step that is no step itself. */
  predicate Stray(tail: string) {
    tail != "" && !IsIdentPart(tail[0]) && ParseSteps(tail).None?
  }

  lemma StrayCons(s: Step, tail: string)
    requires StepOk(s) && Stray(tail)
    ensures Stray(WriteStep(s) + tail)
  {
    ParseOne(s, tail);
  }

  lemma WrittenTail(s: Step, rest: seq<Step>, tail: string)
    ensures Written([s] + rest) + tail == WriteStep(s) + (Written(rest) + tail)
  {
    WrittenCons(s, rest);
  }

  lemma {:induction false} StrayStops(steps: seq<Step>, tail: string)
    requires StepsOk(steps) && Stray(tail)
    ensures Stray(Written(steps) + tail)
    decreases |steps|
  {
    if steps == [] {
      assert Written(steps) + tail == tail;
    } else {
      StrayStops(steps[1..], tail);
      StrayCons(steps[0], Written(steps[1..]) + tail);
      WrittenTail(steps[0], steps[1..], tail);
      assert [steps[0]] + steps[1..] == steps;
    }
  }

  /** For instance operators other than the equalities are not read: `a.b + c` has no value, whatever `c` is. */
  lemma StrayHasNone<V>(w: World<V>, look: Lookup<V>, name: string, steps: seq<Step>, tail: string)
    requires IsIdent(name) && StepsOk(steps)
    requires tail != "" && !IsIdentPart(tail[0]) && tail[0] != '.' && tail[0] != '['
    ensures ResolvePath(w, look, name + (Written(steps) + tail)) == w.undef
  {
    var rest := Written(steps) + tail;
    StrayStops(steps, tail);
    forall n, ss ensures !IsPath(name + rest, n, ss) { NotPath(name, rest, n, ss); }
    NoPathHasNone(w, look, name + rest);
  }

  lemma ReadsKey<V>(w: World<V>, look: Lookup<V>, name: string, key: string)
    requires IsIdent(name) && (IsIdent(key) || IsDigits(key))
    ensures ResolvePath(w, look, name + "." + key) == w.Read(look(name), w.text(key))
  {
    var steps := [Key(key)];
    WrittenCons(Key(key), []);
    assert Written(steps) == "." + key by { assert [Key(key)] + [] == steps; }
    assert name + "." + key == name + Written(steps);
    PathReads(w, look, name + "." + key, name, steps);
    ReadsCons(w, look, Key(key), [], look(name));
    assert [Key(key)] + [] == steps;
  }

  /** A key is not read off undefined or null, and neither is a name. */
  lemma OneKey<V>(w: World<V>, vals: V, name: string, key: string)
    requires IsIdent(name) && (IsIdent(key) || IsDigits(key))
    ensures var obj := if w.nullish(vals) then w.undef else w.prop(vals, w.text(name));
            ResolvePath(w, Names(w, vals), name + "." + key) ==
            if w.nullish(obj) then w.undef else w.prop(obj, w.text(key))
  {
    var look := Names(w, vals);
    ReadsKey(w, look, name, key);
    var obj := if w.nullish(vals) then w.undef else w.prop(vals, w.text(name));
    assert look(name) == w.Read(vals, w.text(name));
    assert w.Read(vals, w.text(name)) == obj;
    assert ResolvePath(w, look, name + "." + key) == w.Read(obj, w.text(key));
  }
}
