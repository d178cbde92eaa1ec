/** Splitting a text at its `{{ … }}` holes. */
module Holes {
  import opened Prelude

  predicate PairAt(s: string, c: char, i: int) {
    0 <= i && i + 1 < |s| && s[i] == c && s[i + 1] == c
  }

  /** The first doubled `c` from place `i` on. */
  function FirstPair(s: string, c: char, i: nat): (r: Option<nat>)
    ensures r.None? ==> forall j | i <= j :: !PairAt(s, c, j)
    ensures r.Some? ==> i <= r.value && PairAt(s, c, r.value) && forall j | i <= j < r.value :: !PairAt(s, c, j)
    decreases |s| - i
  {
    if i >= |s| then None
    else if PairAt(s, c, i) then Some(i)
    else FirstPair(s, c, i + 1)
  }

  datatype Hole = Hole(open: nat, close: nat)

  /**
   The leftmost match of `\{\{([\s\S]+?)\}\}`: from the first `{{` to the first `}}` that leaves
   room for one character. If the first `{{` has no such partner, no later one has.
   */
  function NextHole(s: string): (r: Option<Hole>)
    ensures r.Some? ==> r.value.open + 3 <= r.value.close && r.value.close + 2 <= |s|
  {
    var open := FirstPair(s, '{', 0);
    if open.None? then None
    else
      var close := FirstPair(s, '}', open.value + 3);
      if close.None? then None else Some(Hole(open.value, close.value))
  }

  /** Literal parts at even places, the insides of holes at odd places. */
  function Split(s: string): (parts: seq<string>)
    ensures |parts| % 2 == 1
    decreases |s|
  {
    var m := NextHole(s);
    if m.None? then [s]
    else [s[..m.value.open], s[m.value.open + 2..m.value.close]] + Split(s[m.value.close + 2..])
  }

  // ---------------------------------------------------------------- what a split is

  /** Putting the braces back. */
  function Join(parts: seq<string>): string
    requires |parts| % 2 == 1
  {
    if |parts| == 1 then parts[0]
    else parts[0] + "{{" + parts[1] + "}}" + Join(parts[2..])
  }

  /** A literal in front of a hole: the braces that open the hole are the first ones. */
  predicate ClosedLiteral(lit: string) {
    (forall i | 0 <= i < |lit| :: !PairAt(lit, '{', i)) && (lit != "" ==> lit[|lit| - 1] != '{')
  }

  /** The inside of a hole: not empty, and it ends at the first closing braces behind its first character. */
  predicate HoleBody(body: string) {
    && body != ""
    && (forall i | 1 <= i < |body| :: !PairAt(body, '}', i))
    && (|body| > 1 ==> body[|body| - 1] != '}')
  }

  ghost predicate IsSplit(parts: seq<string>) {
    && |parts| % 2 == 1
    && (forall i | 0 <= i < |parts| - 1 && i % 2 == 0 :: ClosedLiteral(parts[i]))
    && (forall i | 0 <= i < |parts| && i % 2 == 1 :: HoleBody(parts[i]))
    && NextHole(parts[|parts| - 1]).None?
  }

  lemma HoleOfPieces(lit: string, body: string, rest: string)
    requires ClosedLiteral(lit) && HoleBody(body)
    ensures var s := lit + "{{" + body + "}}" + rest;
            NextHole(s) == Some(Hole(|lit|, |lit| + 2 + |body|))
  {
    var s := lit + "{{" + body + "}}" + rest;
    var o, c := |lit|, |lit| + 2 + |body|;
    assert PairAt(s, '{', o) && PairAt(s, '}', c);
    forall j | 0 <= j < o ensures !PairAt(s, '{', j) {
      assert s[j] == lit[j];
      if j + 1 < o { assert !PairAt(lit, '{', j); }
    }
    forall j | o + 3 <= j < c ensures !PairAt(s, '}', j) {
      assert s[j] == body[j - o - 2];
      if j + 1 < c { assert !PairAt(body, '}', j - o - 2); }
    }
  }

  lemma PiecesOfHole(s: string)
    requires NextHole(s).Some?
    ensures var m := NextHole(s).value;
            && ClosedLiteral(s[..m.open]) && HoleBody(s[m.open + 2..m.close])
            && s == s[..m.open] + "{{" + s[m.open + 2..m.close] + "}}" + s[m.close + 2..]
  {
    var m := NextHole(s).value;
    var lit, body := s[..m.open], s[m.open + 2..m.close];
    forall i | 0 <= i < |lit| ensures !PairAt(lit, '{', i) { assert !PairAt(s, '{', i); }
    if lit != "" { assert !PairAt(s, '{', m.open - 1); }
    forall i | 1 <= i < |body| ensures !PairAt(body, '}', i) { assert !PairAt(s, '}', m.open + 2 + i); }
    if |body| > 1 { assert !PairAt(s, '}', m.close - 1); }
  }

  lemma IsSplitTail(parts: seq<string>)
    requires |parts| >= 3 && |parts| % 2 == 1
    ensures IsSplit(parts) <==> ClosedLiteral(parts[0]) && HoleBody(parts[1]) && IsSplit(parts[2..])
  {
    var tail := parts[2..];
    assert tail[|tail| - 1] == parts[|parts| - 1];
    if IsSplit(parts) {
      forall i | 0 <= i < |tail| - 1 && i % 2 == 0 ensures ClosedLiteral(tail[i]) { assert ClosedLiteral(parts[i + 2]); }
      forall i | 0 <= i < |tail| && i % 2 == 1 ensures HoleBody(tail[i]) { assert HoleBody(parts[i + 2]); }
    }
    if ClosedLiteral(parts[0]) && HoleBody(parts[1]) && IsSplit(tail) {
      forall i | 0 <= i < |parts| - 1 && i % 2 == 0 ensures ClosedLiteral(parts[i]) {
        if i > 0 { assert ClosedLiteral(tail[i - 2]); }
      }
      forall i | 0 <= i < |parts| && i % 2 == 1 ensures HoleBody(parts[i]) {
        if i > 1 { assert HoleBody(tail[i - 2]); }
      }
    }
  }

  /** The split loses nothing, and is leftmost and shortest at every hole. */
  lemma {:induction false} SplitIsSplit(s: string)
    ensures Join(Split(s)) == s && IsSplit(Split(s))
    decreases |s|
  {
    var m := NextHole(s);
    if m.Some? {
      var rest := s[m.value.close + 2..];
      PiecesOfHole(s);
      SplitIsSplit(rest);
      var parts := Split(s);
      assert parts[2..] == Split(rest);
      IsSplitTail(parts);
    }
  }

  /** And it is the only such split: two ways to read a text as literals and holes are the same. */
  lemma {:induction false} SplitUnique(parts: seq<string>)
    requires IsSplit(parts)
    ensures Split(Join(parts)) == parts
    decreases |parts|
  {
    if |parts| > 1 {
      var lit, body, tail := FirstHole(parts);
      SplitUnique(tail);
      SplitCons(lit, body, tail);
    }
  }

  lemma FirstHole(parts: seq<string>) returns (lit: string, body: string, tail: seq<string>)
    requires IsSplit(parts) && |parts| > 1
    ensures parts == [lit, body] + tail && |tail| < |parts|
    ensures ClosedLiteral(lit) && HoleBody(body) && IsSplit(tail)
  {
    IsSplitTail(parts);
    lit, body, tail := parts[0], parts[1], parts[2..];
  }

  lemma SplitCons(lit: string, body: string, tail: seq<string>)
    requires ClosedLiteral(lit) && HoleBody(body) && |tail| % 2 == 1 && Split(Join(tail)) == tail
    ensures Split(Join([lit, body] + tail)) == [lit, body] + tail
  {
    JoinCons(lit, body, tail);
    SplitStep(lit, body, Join(tail));
  }

  lemma JoinCons(lit: string, body: string, tail: seq<string>)
    requires |tail| % 2 == 1
    ensures Join([lit, body] + tail) == lit + "{{" + body + "}}" + Join(tail)
  {
    assert ([lit, body] + tail)[2..] == tail;
  }

  lemma SplitStep(lit: string, body: string, rest: string)
    requires ClosedLiteral(lit) && HoleBody(body)
    ensures Split(lit + "{{" + body + "}}" + rest) == [lit, body] + Split(rest)
  {
    HoleOfPieces(lit, body, rest);
    JoinPieces(lit, body, rest);
  }

  lemma JoinPieces(lit: string, body: string, rest: string)
    ensures var s := lit + "{{" + body + "}}" + rest;
            && s[..|lit|] == lit && s[|lit| + 2..|lit| + 2 + |body|] == body
            && s[|lit| + 4 + |body|..] == rest
  {
  }

  /** In particular holes are not empty, and only the last literal may contain `{{`. */
  lemma SplitParts(s: string, i: nat)
    requires i < |Split(s)|
    ensures i % 2 == 1 ==> Split(s)[i] != ""
    ensures i % 2 == 0 && i < |Split(s)| - 1 ==> FirstPair(Split(s)[i], '{', 0).None?
  {
    SplitIsSplit(s);
  }

  // ---------------------------------------------------------------- rendering a text

  /** `map` over the parts of a split: literals at even places, holes at odd ones. */
  function MapParts<T>(parts: seq<string>, lit: string -> T, hole: (string, nat) -> T, i: nat): seq<T> {
    seq(|parts|, k requires 0 <= k < |parts| => if k % 2 == 0 then lit(parts[k]) else hole(parts[k], i + k))
  }

  /** The same without a split: literals and holes as they come, from left to right. */
  function Pieces<T>(s: string, lit: string -> T, hole: (string, nat) -> T, i: nat): seq<T>
    decreases |s|
  {
    match NextHole(s)
    case None => [lit(s)]
    case Some(h) => [lit(s[..h.open]), hole(s[h.open + 2..h.close], i + 1)] + Pieces(s[h.close + 2..], lit, hole, i + 2)
  }

  lemma MapTwo<T>(a: string, b: string, rest: seq<string>, lit: string -> T, hole: (string, nat) -> T, i: nat)
    ensures MapParts([a, b] + rest, lit, hole, i) == [lit(a), hole(b, i + 1)] + MapParts(rest, lit, hole, i + 2)
  {
    var all := [a, b] + rest;
    assert forall k | 2 <= k < |all| :: all[k] == rest[k - 2];
  }

  lemma PiecesTwo<T>(s: string, lit: string -> T, hole: (string, nat) -> T, i: nat) returns (a: string, b: string, rest: string)
    requires NextHole(s).Some?
    ensures |rest| < |s| && Split(s) == [a, b] + Split(rest)
    ensures Pieces(s, lit, hole, i) == [lit(a), hole(b, i + 1)] + Pieces(rest, lit, hole, i + 2)
  {
    var m := NextHole(s).value;
    a, b, rest := s[..m.open], s[m.open + 2..m.close], s[m.close + 2..];
  }

  /** Splitting first and mapping later renders the text from left to right. */
  lemma {:induction false} MapIsPieces<T>(s: string, lit: string -> T, hole: (string, nat) -> T, i: nat)
    ensures MapParts(Split(s), lit, hole, i) == Pieces(s, lit, hole, i)
    decreases |s|
  {
    if NextHole(s).Some? {
      var a, b, rest := PiecesTwo(s, lit, hole, i);
      MapIsPieces(rest, lit, hole, i + 2);
      MapTwo(a, b, Split(rest), lit, hole, i);
    }
  }

  /** Only what is done with the holes of the text matters. */
  lemma PiecesByHoles<T>(s: string, lit: string -> T, f: (string, nat) -> T, g: (string, nat) -> T, i: nat)
    requires forall k, key: nat | 0 <= k < |Split(s)| && k % 2 == 1 :: f(Split(s)[k], key) == g(Split(s)[k], key)
    ensures Pieces(s, lit, f, i) == Pieces(s, lit, g, i)
  {
    MapIsPieces(s, lit, f, i);
    MapIsPieces(s, lit, g, i);
    assert MapParts(Split(s), lit, f, i) == MapParts(Split(s), lit, g, i);
  }
}
