/** Reciprocal-rank fusion of vector results with a boost for entries that graph results mention. */
module Fusion {

  datatype Entry = Entry(id: string, content: string)

  /** Does the content of an entry mention the name of a graph node? */
  type Mentions = (string, string) -> bool

  /** The score of a place in a ranking; ranks start at zero. */
  function Recip(rank: nat): real {
    1.0 / ((60 + rank + 1) as real)
  }

  function Boost(rank: nat): real {
    0.5 / ((60 + rank + 1) as real)
  }

  /** What the first `n` vector places give to an id. */
  function VectorScore(v: seq<Entry>, n: nat, id: string): real
    requires n <= |v|
  {
    if n == 0 then 0.0 else VectorScore(v, n - 1, id) + if v[n - 1].id == id then Recip(n - 1) else 0.0
  }

  /** What one graph node of weight `w` gives to an id through the first `n` entries. */
  function NodeScore(ment: Mentions, v: seq<Entry>, n: nat, node: string, w: real, id: string): real
    requires n <= |v|
  {
    if n == 0 then 0.0
    else NodeScore(ment, v, n - 1, node, w, id) + if v[n - 1].id == id && ment(v[n - 1].content, node) then w else 0.0
  }

  /** What the first `k` graph nodes give to an id. */
  function GraphScore(ment: Mentions, v: seq<Entry>, g: seq<string>, k: nat, id: string): real
    requires k <= |g|
  {
    if k == 0 then 0.0
    else GraphScore(ment, v, g, k - 1, id) + NodeScore(ment, v, |v|, g[k - 1], Boost(k - 1), id)
  }

  function Score(ment: Mentions, v: seq<Entry>, g: seq<string>, id: string): real {
    VectorScore(v, |v|, id) + GraphScore(ment, v, g, |g|, id)
  }

  /** Ids in the order in which they first appear. */
  function FirstSeen(v: seq<Entry>, n: nat): seq<string>
    requires n <= |v|
  {
    if n == 0 then []
    else
      var seen := FirstSeen(v, n - 1);
      if v[n - 1].id in seen then seen else seen + [v[n - 1].id]
  }

  lemma {:induction false} SeenExactly(v: seq<Entry>, n: nat)
    requires n <= |v|
    ensures forall id :: id in FirstSeen(v, n) <==> exists i | 0 <= i < n :: v[i].id == id
    ensures forall i, j | 0 <= i < j < |FirstSeen(v, n)| :: FirstSeen(v, n)[i] != FirstSeen(v, n)[j]
  {
    if n > 0 {
      SeenExactly(v, n - 1);
      assert v[n - 1].id in FirstSeen(v, n);
    }
  }

  /** The two accumulation loops: scores by id, and the ids in insertion order. */
  method Accumulate(ment: Mentions, v: seq<Entry>, g: seq<string>) returns (keys: seq<string>, scores: map<string, real>)
    ensures keys == FirstSeen(v, |v|)
    ensures scores.Keys == set i | 0 <= i < |v| :: v[i].id
    ensures forall id | id in scores :: scores[id] == Score(ment, v, g, id)
  {
    keys, scores := [], map[];
    for rank := 0 to |v|
      invariant keys == FirstSeen(v, rank)
      invariant scores.Keys == set i | 0 <= i < rank :: v[i].id
      invariant forall id :: id in keys <==> id in scores
      invariant forall id :: (if id in scores then scores[id] else 0.0) == VectorScore(v, rank, id)
    {
      var id := v[rank].id;
      if id !in scores { keys := keys + [id]; }
      scores := scores[id := (if id in scores then scores[id] else 0.0) + Recip(rank)];
    }
    for rank := 0 to |g|
      invariant scores.Keys == set i | 0 <= i < |v| :: v[i].id
      invariant forall id | id in scores :: scores[id] == VectorScore(v, |v|, id) + GraphScore(ment, v, g, rank, id)
    {
      scores := AddNode(ment, v, g[rank], Boost(rank), scores);
    }
  }

  /** The inner loop: each entry that mentions the node gets its weight. */
  method AddNode(ment: Mentions, v: seq<Entry>, node: string, w: real, scores: map<string, real>)
    returns (out: map<string, real>)
    requires scores.Keys == set i | 0 <= i < |v| :: v[i].id
    ensures out.Keys == scores.Keys
    ensures forall id | id in scores :: out[id] == scores[id] + NodeScore(ment, v, |v|, node, w, id)
  {
    out := scores;
    for j := 0 to |v|
      invariant out.Keys == scores.Keys
      invariant forall id | id in scores :: out[id] == scores[id] + NodeScore(ment, v, j, node, w, id)
    {
      if ment(v[j].content, node) {
        assert v[j].id in scores;
        out := out[v[j].id := out[v[j].id] + w];
      }
    }
  }

  // ---------------------------------------------------------------- sorting

  /** A fused entry: its place in insertion order, its id and its score. */
  datatype Ranked = Ranked(place: nat, id: string, score: real)

  /** Higher score, or equal score and inserted earlier. */
  predicate Ahead(a: Ranked, b: Ranked) {
    a.score > b.score || (a.score == b.score && a.place < b.place)
  }

  predicate InOrder(s: seq<Ranked>) {
    forall p, q | 0 <= p < q < |s| :: Ahead(s[p], s[q])
  }

  function Insert(s: seq<Ranked>, x: Ranked): seq<Ranked>
    decreases |s|
  {
    if s == [] then [x]
    else if s[|s| - 1].score >= x.score then s + [x]
    else Insert(s[..|s| - 1], x) + [s[|s| - 1]]
  }

  /** A stable sort by descending score. */
  function Sort(s: seq<Ranked>): seq<Ranked>
    decreases |s|
  {
    if s == [] then [] else Insert(Sort(s[..|s| - 1]), s[|s| - 1])
  }

  lemma {:induction false} InsertInOrder(s: seq<Ranked>, x: Ranked)
    requires InOrder(s) && forall i | 0 <= i < |s| :: s[i].place < x.place
    ensures InOrder(Insert(s, x)) && multiset(Insert(s, x)) == multiset(s) + multiset{x}
    decreases |s|
  {
    if s != [] {
      var m := |s| - 1;
      var init, last := s[..m], s[m];
      assert s == init + [last];
      if last.score >= x.score {
        SnocInOrder(s, x);
      } else {
        InsertInOrder(init, x);
        var r := Insert(init, x);
        forall y | y in r ensures Ahead(y, last) {
          assert y in multiset(r);
          assert y in multiset(init) + multiset{x};
        }
        SnocInOrder(r, last);
      }
    }
  }

  lemma SnocInOrder(s: seq<Ranked>, x: Ranked)
    requires InOrder(s) && (s != [] ==> Ahead(s[|s| - 1], x) || forall y | y in s :: Ahead(y, x))
    ensures InOrder(s + [x])
  {
    forall p | 0 <= p < |s| ensures Ahead(s[p], x) {
      if p < |s| - 1 { assert Ahead(s[p], s[|s| - 1]); }
    }
  }

  lemma {:induction false} SortInOrder(s: seq<Ranked>)
    requires forall i, j | 0 <= i < j < |s| :: s[i].place < s[j].place
    ensures InOrder(Sort(s)) && multiset(Sort(s)) == multiset(s)
    decreases |s|
  {
    if s != [] {
      var m := |s| - 1;
      var init, last := s[..m], s[m];
      assert s == init + [last];
      SortInOrder(init);
      forall i | 0 <= i < |Sort(init)| ensures Sort(init)[i].place < last.place {
        assert Sort(init)[i] in multiset(init);
      }
      InsertInOrder(Sort(init), last);
    }
  }

  // ---------------------------------------------------------------- what fusion promises

  predicate UniqueIds(v: seq<Entry>) {
    forall i, j | 0 <= i < j < |v| :: v[i].id != v[j].id
  }

  /** With unique ids the insertion order is the vector order. */
  lemma {:induction false} SeenIsVectorOrder(v: seq<Entry>, n: nat)
    requires UniqueIds(v) && n <= |v|
    ensures |FirstSeen(v, n)| == n && forall i | 0 <= i < n :: FirstSeen(v, n)[i] == v[i].id
  {
    if n > 0 { SeenIsVectorOrder(v, n - 1); }
  }

  lemma {:induction false} VectorScoreOf(v: seq<Entry>, n: nat, i: nat)
    requires UniqueIds(v) && n <= |v| && i < |v|
    ensures VectorScore(v, n, v[i].id) == if i < n then Recip(i) else 0.0
  {
    if n > 0 { VectorScoreOf(v, n - 1, i); }
  }

  lemma {:induction false} NodeScoreOf(ment: Mentions, v: seq<Entry>, n: nat, node: string, w: real, i: nat)
    requires UniqueIds(v) && n <= |v| && i < |v|
    ensures NodeScore(ment, v, n, node, w, v[i].id) == if i < n && ment(v[i].content, node) then w else 0.0
  {
    if n > 0 { NodeScoreOf(ment, v, n - 1, node, w, i); }
  }

  lemma RecipDecreases(i: nat, j: nat)
    requires i < j
    ensures Recip(i) > Recip(j)
  {
    var a, b := (61 + i) as real, (61 + j) as real;
    assert 1.0 / a - 1.0 / b == (b - a) / (a * b);
    assert (b - a) / (a * b) > 0.0;
  }

  lemma BoostPositive(k: nat)
    ensures Boost(k) > 0.0
  {
  }

  lemma {:induction false} GraphScoreMonotone(ment: Mentions, v: seq<Entry>, g: seq<string>, k: nat, i: nat, j: nat)
    requires UniqueIds(v) && i < |v| && j < |v| && k <= |g|
    requires forall n | 0 <= n < |g| :: ment(v[j].content, g[n]) ==> ment(v[i].content, g[n])
    ensures GraphScore(ment, v, g, k, v[i].id) >= GraphScore(ment, v, g, k, v[j].id)
  {
    if k > 0 {
      GraphScoreMonotone(ment, v, g, k - 1, i, j);
      NodeScoreOf(ment, v, |v|, g[k - 1], Boost(k - 1), i);
      NodeScoreOf(ment, v, |v|, g[k - 1], Boost(k - 1), j);
      BoostPositive(k - 1);
    }
  }

  /** An entry ahead by vector whose mentions include all of the other's stays ahead. */
  lemma AheadStaysAhead(ment: Mentions, v: seq<Entry>, g: seq<string>, i: nat, j: nat)
    requires UniqueIds(v) && i < j < |v|
    requires forall n | 0 <= n < |g| :: ment(v[j].content, g[n]) ==> ment(v[i].content, g[n])
    ensures Score(ment, v, g, v[i].id) > Score(ment, v, g, v[j].id)
  {
    VectorScoreOf(v, |v|, i);
    VectorScoreOf(v, |v|, j);
    RecipDecreases(i, j);
    GraphScoreMonotone(ment, v, g, |g|, i, j);
  }

  lemma {:induction false} GraphScoreNone(ment: Mentions, v: seq<Entry>, g: seq<string>, k: nat, i: nat)
    requires UniqueIds(v) && i < |v| && k <= |g|
    requires forall n | 1 <= n < |g| :: !ment(v[i].content, g[n])
    ensures GraphScore(ment, v, g, k, v[i].id) == if k > 0 && ment(v[i].content, g[0]) then Boost(0) else 0.0
  {
    if k > 0 {
      GraphScoreNone(ment, v, g, k - 1, i);
      NodeScoreOf(ment, v, |v|, g[k - 1], Boost(k - 1), i);
    }
  }

  /**
   How far a boost reaches: an entry at vector rank `r` that only the top graph node mentions passes an
   unmentioned entry at rank 0 exactly for `r` below 61.
   */
  lemma BoostReach(ment: Mentions, v: seq<Entry>, g: seq<string>, r: nat)
    requires UniqueIds(v) && 0 < r < |v| && |g| > 0
    requires ment(v[r].content, g[0]) && forall n | 1 <= n < |g| :: !ment(v[r].content, g[n])
    requires forall n | 0 <= n < |g| :: !ment(v[0].content, g[n])
    ensures Score(ment, v, g, v[r].id) > Score(ment, v, g, v[0].id) <==> r < 61
    ensures Score(ment, v, g, v[r].id) == Score(ment, v, g, v[0].id) <==> r == 61
  {
    VectorScoreOf(v, |v|, r);
    VectorScoreOf(v, |v|, 0);
    GraphScoreNone(ment, v, g, |g|, r);
    GraphScoreNone(ment, v, g, |g|, 0);
    assert Recip(61) + Boost(0) == Recip(0);
    if r < 61 { RecipDecreases(r, 61); } else if r > 61 { RecipDecreases(61, r); }
  }

  /** The distinct ids with their fused scores, in the order in which they first appear. */
  function Scored(ment: Mentions, v: seq<Entry>, g: seq<string>): seq<Ranked> {
    var keys := FirstSeen(v, |v|);
    seq(|keys|, i requires 0 <= i < |keys| => Ranked(i, keys[i], Score(ment, v, g, keys[i])))
  }

  /** A permutation of the scored ids by descending score, ties by first appearance. */
  ghost predicate IsFused(ment: Mentions, v: seq<Entry>, g: seq<string>, fused: seq<Ranked>) {
    multiset(fused) == multiset(Scored(ment, v, g)) && InOrder(fused)
  }

  lemma SeenHaveScores(v: seq<Entry>, scores: map<string, real>)
    requires scores.Keys == set i | 0 <= i < |v| :: v[i].id
    ensures forall k | 0 <= k < |FirstSeen(v, |v|)| :: FirstSeen(v, |v|)[k] in scores
  {
    SeenExactly(v, |v|);
    var keys := FirstSeen(v, |v|);
    forall k | 0 <= k < |keys| ensures keys[k] in scores {
      assert keys[k] in keys;
      var i :| 0 <= i < |v| && v[i].id == keys[k];
    }
  }

  /** Fusion and sort together: exactly the ids found, by descending score, ties by first appearance. */
  method Fuse(ment: Mentions, v: seq<Entry>, g: seq<string>) returns (fused: seq<Ranked>)
    ensures IsFused(ment, v, g, fused)
  {
    var keys, scores := Accumulate(ment, v, g);
    SeenHaveScores(v, scores);
    var list := seq(|keys|, i requires 0 <= i < |keys| => Ranked(i, keys[i], if keys[i] in scores then scores[keys[i]] else 0.0));
    assert list == Scored(ment, v, g);
    SortInOrder(list);
    fused := Sort(list);
  }

  /** With unique ids the ids found are the vector results, one for one, and each score is that of its place. */
  lemma ScoredOfUnique(ment: Mentions, v: seq<Entry>, g: seq<string>)
    requires UniqueIds(v)
    ensures |Scored(ment, v, g)| == |v|
    ensures forall i | 0 <= i < |v| :: Scored(ment, v, g)[i] ==
              Ranked(i, v[i].id, Recip(i) + GraphScore(ment, v, g, |g|, v[i].id))
  {
    SeenIsVectorOrder(v, |v|);
    forall i | 0 <= i < |v| ensures VectorScore(v, |v|, v[i].id) == Recip(i) { VectorScoreOf(v, |v|, i); }
  }

  // ---------------------------------------------------------------- places in the fused list

  /** The first place of an id, or the length of the list. */
  function PlaceOf(fused: seq<Ranked>, id: string): (p: nat)
    ensures p <= |fused| && (p < |fused| ==> fused[p].id == id) && forall q | 0 <= q < p :: fused[q].id != id
  {
    if fused == [] || fused[0].id == id then 0 else 1 + PlaceOf(fused[1..], id)
  }

  /** Each vector result has one place in the fused list, and stands there with its score. */
  lemma FoundAtPlace(ment: Mentions, v: seq<Entry>, g: seq<string>, fused: seq<Ranked>, i: nat)
    requires UniqueIds(v) && i < |v| && IsFused(ment, v, g, fused)
    ensures var p := PlaceOf(fused, v[i].id);
            p < |fused| && fused[p] == Ranked(i, v[i].id, Score(ment, v, g, v[i].id))
  {
    var scored := Scored(ment, v, g);
    SeenIsVectorOrder(v, |v|);
    assert scored[i] in multiset(fused);
    var q :| 0 <= q < |fused| && fused[q] == scored[i];
    var p := PlaceOf(fused, v[i].id);
    assert fused[p] in multiset(scored);
    var k :| 0 <= k < |scored| && scored[k] == fused[p];
  }

  /** Of two results the one with the higher score comes first; with equal scores the vector order decides. */
  lemma PlacesByScore(ment: Mentions, v: seq<Entry>, g: seq<string>, fused: seq<Ranked>, i: nat, j: nat)
    requires UniqueIds(v) && i < |v| && j < |v| && IsFused(ment, v, g, fused)
    ensures PlaceOf(fused, v[i].id) < PlaceOf(fused, v[j].id) <==>
            var a, b := Score(ment, v, g, v[i].id), Score(ment, v, g, v[j].id); a > b || (a == b && i < j)
  {
    FoundAtPlace(ment, v, g, fused, i);
    FoundAtPlace(ment, v, g, fused, j);
    var p, q := PlaceOf(fused, v[i].id), PlaceOf(fused, v[j].id);
    if p < q { assert Ahead(fused[p], fused[q]); }
    if q < p { assert Ahead(fused[q], fused[p]); }
  }

  /** In the fused list an entry ahead by vector whose mentions include all of the other's still comes first. */
  lemma AheadInFused(ment: Mentions, v: seq<Entry>, g: seq<string>, fused: seq<Ranked>, i: nat, j: nat)
    requires UniqueIds(v) && i < j < |v| && IsFused(ment, v, g, fused)
    requires forall n | 0 <= n < |g| :: ment(v[j].content, g[n]) ==> ment(v[i].content, g[n])
    ensures PlaceOf(fused, v[i].id) < PlaceOf(fused, v[j].id)
  {
    AheadStaysAhead(ment, v, g, i, j);
    PlacesByScore(ment, v, g, fused, i, j);
  }

  /** And the boosted entry stands before the unmentioned first one exactly for `r` below 61; at 61 the tie keeps it behind. */
  lemma BoostInFused(ment: Mentions, v: seq<Entry>, g: seq<string>, fused: seq<Ranked>, r: nat)
    requires UniqueIds(v) && 0 < r < |v| && |g| > 0 && IsFused(ment, v, g, fused)
    requires ment(v[r].content, g[0]) && forall n | 1 <= n < |g| :: !ment(v[r].content, g[n])
    requires forall n | 0 <= n < |g| :: !ment(v[0].content, g[n])
    ensures PlaceOf(fused, v[r].id) < PlaceOf(fused, v[0].id) <==> r < 61
    ensures r == 61 ==> Score(ment, v, g, v[r].id) == Score(ment, v, g, v[0].id)
  {
    BoostReach(ment, v, g, r);
    PlacesByScore(ment, v, g, fused, r, 0);
  }
}
