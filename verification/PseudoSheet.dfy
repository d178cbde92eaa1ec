/** Classes for pseudo-class styles: one rule for each key, made at its first use. */
module PseudoSheet {
  import opened Digits

  datatype Request = Request(pseudo: string, css: string)

  function KeyOf(r: Request): string {
    r.pseudo + "|" + r.css
  }

  function ClassName(n: nat): string {
    "scp" + Numeral(n, ThirtySix)
  }

  /** The text of a rule: selector and style. */
  function Rule(n: nat, r: Request): string {
    "." + ClassName(n) + (if r.pseudo == "before" || r.pseudo == "after" then "::" else ":") + r.pseudo + "{" + r.css + "}"
  }

  /** Pseudo-elements take two colons, pseudo-classes one. */
  lemma RuleColons(n: nat, css: string, pseudo: string)
    ensures Rule(n, Request("before", css)) == "." + ClassName(n) + "::before{" + css + "}"
    ensures Rule(n, Request("after", css)) == "." + ClassName(n) + "::after{" + css + "}"
    ensures pseudo !in ["before", "after"] ==>
              Rule(n, Request(pseudo, css)) == "." + ClassName(n) + ":" + pseudo + "{" + css + "}"
  {
    assert pseudo !in ["before", "after"] ==> pseudo != ["before", "after"][0] && pseudo != ["before", "after"][1];
  }

  lemma ClassNamesDiffer(m: nat, n: nat)
    ensures ClassName(m) == ClassName(n) <==> m == n
  {
    NumeralInjective(m, n, ThirtySix);
    assert ClassName(m)[3..] == Numeral(m, ThirtySix) && ClassName(n)[3..] == Numeral(n, ThirtySix);
  }

  /** Rule `i` belongs to class `i` and was made for request `i`. */
  ghost predicate RulesFit(rules: seq<string>, made: seq<Request>) {
    |rules| == |made| && forall i | 0 <= i < |rules| :: rules[i] == Rule(i, made[i])
  }

  /** Each key has the class of its own rule, and each rule has its key. */
  ghost predicate CacheFits(cache: map<string, string>, made: seq<Request>, place: map<string, nat>) {
    && place.Keys == cache.Keys
    && (forall k | k in place :: place[k] < |made| && KeyOf(made[place[k]]) == k && cache[k] == ClassName(place[k]))
    && (forall i | 0 <= i < |made| :: KeyOf(made[i]) in place && place[KeyOf(made[i])] == i)
  }

  lemma CacheGrows(cache: map<string, string>, made: seq<Request>, place: map<string, nat>, r: Request)
    requires CacheFits(cache, made, place) && KeyOf(r) !in cache
    ensures CacheFits(cache[KeyOf(r) := ClassName(|made|)], made + [r], place[KeyOf(r) := |made|])
  {
  }

  lemma RulesGrow(rules: seq<string>, made: seq<Request>, r: Request)
    requires RulesFit(rules, made)
    ensures RulesFit(rules + [Rule(|rules|, r)], made + [r])
  {
  }

  class Sheet {
    var cache: map<string, string>
    var n: nat
    var rules: seq<string>
    /** The request that made each rule, and the rule of each key, for the specification. */
    ghost var made: seq<Request>
    ghost var place: map<string, nat>

    ghost predicate Valid()
      reads this
    {
      n == |rules| && RulesFit(rules, made) && CacheFits(cache, made, place)
    }

    constructor ()
      ensures Valid() && made == [] && cache == map[]
    {
      cache, n, rules, made, place := map[], 0, [], [], map[];
    }

    /** A known key keeps its class; a new key gets a class that no other key has, and its own rule. */
    method ClassFor(r: Request) returns (cls: string)
      requires Valid()
      modifies this
      ensures Valid()
      ensures cache == old(cache)[KeyOf(r) := cls]
      ensures KeyOf(r) in old(cache) ==> cls == old(cache)[KeyOf(r)] && rules == old(rules) && made == old(made)
      ensures KeyOf(r) !in old(cache) ==> cls == ClassName(old(n)) && rules == old(rules) + [Rule(old(n), r)] && made == old(made) + [r]
    {
      var k := KeyOf(r);
      if k in cache { return cache[k]; }
      cls := ClassName(n);
      CacheGrows(cache, made, place, r);
      RulesGrow(rules, made, r);
      rules := rules + [Rule(n, r)];
      cache := cache[k := cls];
      made, place := made + [r], place[k := n];
      n := n + 1;
    }

    /**
     Any sequence of requests: equal keys get equal classes and different keys different ones, keys known
     before keep theirs, and the rules made are those of the first requests for each new key, in order.
     */
    method Serve(rs: seq<Request>) returns (cs: seq<string>)
      requires Valid()
      modifies this
      ensures Valid() && Served(old(cache), old(made), rs, cs, cache, made)
      ensures |cs| == |rs| && OwnRules(this, |old(made)|, FirstOf(rs, old(cache.Keys)))
      ensures forall i, j | 0 <= i < |rs| && 0 <= j < |rs| :: cs[i] == cs[j] <==> KeyOf(rs[i]) == KeyOf(rs[j])
    {
      cs := [];
      ghost var done: seq<Request> := [];
      for i := 0 to |rs|
        invariant Valid() && done == rs[..i]
        invariant Served(old(cache), old(made), done, cs, cache, made)
      {
        TakeNext(rs, i);
        ghost var cache0, made0 := cache, made;
        var cls := ClassFor(rs[i]);
        ServeStep(old(cache), old(made), done, cs, cache0, made0, rs[i], cls, cache, made);
        done := done + [rs[i]];
        cs := cs + [cls];
      }
      TakeAll(rs);
      ClassesByKey(this, rs, cs);
      NewRules(this, old(made), FirstOf(rs, old(cache.Keys)));
    }
  }

  /** The `i`-th of these requests owns class and rule number `from + i`. */
  ghost predicate OwnRules(s: Sheet, from: nat, firsts: seq<Request>)
    reads s
  {
    && from + |firsts| == |s.rules|
    && forall i | 0 <= i < |firsts| ::
         var k, at := KeyOf(firsts[i]), from + i;
         k in s.cache && s.cache[k] == ClassName(at) && s.rules[at] == Rule(at, firsts[i])
  }

  lemma NewRules(s: Sheet, before: seq<Request>, firsts: seq<Request>)
    requires s.Valid() && s.made == before + firsts
    ensures OwnRules(s, |before|, firsts)
  {
    forall i | 0 <= i < |firsts|
      ensures var k, at := KeyOf(firsts[i]), |before| + i;
              k in s.cache && s.cache[k] == ClassName(at) && s.rules[at] == Rule(at, firsts[i])
    {
      assert s.made[|before| + i] == firsts[i];
    }
  }

  lemma TakeNext(rs: seq<Request>, i: nat)
    requires i < |rs|
    ensures rs[..i + 1] == rs[..i] + [rs[i]]
  {
  }

  lemma TakeAll(rs: seq<Request>)
    ensures rs[..|rs|] == rs
  {
  }

  /** Each request has the class of its key. */
  predicate Answered(rs: seq<Request>, cs: seq<string>, cache: map<string, string>) {
    |cs| == |rs| && forall i | 0 <= i < |rs| :: KeyOf(rs[i]) in cache && cs[i] == cache[KeyOf(rs[i])]
  }

  /** Known keys keep their class, and exactly the keys of the requests are new. */
  predicate Grown(before: map<string, string>, after: map<string, string>, rs: seq<Request>) {
    && (forall k | k in before :: k in after && after[k] == before[k])
    && forall k | k in after && k !in before :: HasKey(rs, k)
  }

  predicate HasKey(rs: seq<Request>, k: string) {
    exists i | 0 <= i < |rs| :: KeyOf(rs[i]) == k
  }

  lemma HasKeySnoc(rs: seq<Request>, r: Request, k: string)
    ensures HasKey(rs + [r], k) <==> HasKey(rs, k) || KeyOf(r) == k
  {
    var all := rs + [r];
    if HasKey(rs, k) {
      var i :| 0 <= i < |rs| && KeyOf(rs[i]) == k;
      assert KeyOf(all[i]) == k;
    }
    assert KeyOf(all[|rs|]) == KeyOf(r);
  }

  lemma AnsweredStep(rs: seq<Request>, cs: seq<string>, cache: map<string, string>, r: Request, cls: string)
    requires Answered(rs, cs, cache) && (KeyOf(r) in cache ==> cls == cache[KeyOf(r)])
    ensures Answered(rs + [r], cs + [cls], cache[KeyOf(r) := cls])
  {
  }

  lemma GrownStep(before: map<string, string>, cache: map<string, string>, rs: seq<Request>, r: Request, cls: string)
    requires Grown(before, cache, rs) && (KeyOf(r) in cache ==> cls == cache[KeyOf(r)])
    ensures Grown(before, cache[KeyOf(r) := cls], rs + [r])
  {
    var after := cache[KeyOf(r) := cls];
    forall k | k in after && k !in before ensures HasKey(rs + [r], k) {
      HasKeySnoc(rs, r, k);
    }
  }

  lemma KnownKey(before: map<string, string>, cache: map<string, string>, rs: seq<Request>, k: string)
    requires Grown(before, cache, rs) && forall i | 0 <= i < |rs| :: KeyOf(rs[i]) in cache
    ensures k in cache <==> k in before.Keys || HasKey(rs, k)
  {
  }

  /** The requests of `rs` that are the first ones for a key, in order, where some keys are known. */
  function FirstOf(rs: seq<Request>, known: set<string>): seq<Request> {
    if rs == [] then []
    else
      var init, r := rs[..|rs| - 1], rs[|rs| - 1];
      if KeyOf(r) in known || HasKey(init, KeyOf(r)) then FirstOf(init, known) else FirstOf(init, known) + [r]
  }

  lemma FirstOfSnoc(rs: seq<Request>, r: Request, known: set<string>, isKnown: bool)
    requires isKnown <==> KeyOf(r) in known || HasKey(rs, KeyOf(r))
    ensures FirstOf(rs + [r], known) == if isKnown then FirstOf(rs, known) else FirstOf(rs, known) + [r]
  {
    assert (rs + [r])[..|rs|] == rs;
  }

  /** What `made` holds after some requests. */
  predicate MadeFor(made: seq<Request>, before: seq<Request>, rs: seq<Request>, known: set<string>) {
    made == before + FirstOf(rs, known)
  }

  lemma MadeStep(
      made: seq<Request>, before: seq<Request>, rs: seq<Request>, known: set<string>, r: Request, isKnown: bool)
    requires MadeFor(made, before, rs, known) && (isKnown <==> KeyOf(r) in known || HasKey(rs, KeyOf(r)))
    ensures MadeFor(if isKnown then made else made + [r], before, rs + [r], known)
  {
    FirstOfSnoc(rs, r, known, isKnown);
  }

  /** Where a sheet stands after serving `rs`. */
  predicate Served(
      before: map<string, string>, madeBefore: seq<Request>,
      rs: seq<Request>, cs: seq<string>, cache: map<string, string>, made: seq<Request>) {
    Answered(rs, cs, cache) && Grown(before, cache, rs) && MadeFor(made, madeBefore, rs, before.Keys)
  }

  lemma ServeStep(
      before: map<string, string>, madeBefore: seq<Request>, rs: seq<Request>, cs: seq<string>,
      cache: map<string, string>, made: seq<Request>, r: Request, cls: string,
      cache': map<string, string>, made': seq<Request>)
    requires Served(before, madeBefore, rs, cs, cache, made)
    requires cache' == cache[KeyOf(r) := cls] && (KeyOf(r) in cache ==> cls == cache[KeyOf(r)])
    requires made' == if KeyOf(r) in cache then made else made + [r]
    ensures Served(before, madeBefore, rs + [r], cs + [cls], cache', made')
  {
    AnsweredStep(rs, cs, cache, r, cls);
    GrownStep(before, cache, rs, r, cls);
    KnownKey(before, cache, rs, KeyOf(r));
    MadeStep(made, madeBefore, rs, before.Keys, r, KeyOf(r) in cache);
  }

  /** In a valid sheet two cached keys share a class exactly when they are the same key. */
  lemma DistinctClasses(s: Sheet, k1: string, k2: string)
    requires s.Valid() && k1 in s.cache && k2 in s.cache
    ensures s.cache[k1] == s.cache[k2] <==> k1 == k2
  {
    ClassNamesDiffer(s.place[k1], s.place[k2]);
  }

  lemma ClassesByKey(s: Sheet, rs: seq<Request>, cs: seq<string>)
    requires s.Valid() && Answered(rs, cs, s.cache)
    ensures forall i, j | 0 <= i < |rs| && 0 <= j < |rs| :: cs[i] == cs[j] <==> KeyOf(rs[i]) == KeyOf(rs[j])
  {
    forall i, j | 0 <= i < |rs| && 0 <= j < |rs|
      ensures cs[i] == cs[j] <==> KeyOf(rs[i]) == KeyOf(rs[j])
    {
      DistinctClasses(s, KeyOf(rs[i]), KeyOf(rs[j]));
    }
  }

  // ---------------------------------------------------------------- which requests share a key

  /** The name of `q` is that of `r`, a bar and a surplus; the style of `r` is that surplus, a bar and the style of `q`. */
  predicate Absorbs(r: Request, q: Request) {
    && r.pseudo + "|" <= q.pseudo
    && r.css == q.pseudo[|r.pseudo| + 1..] + "|" + q.css
  }

  lemma AbsorbedKey(r: Request, q: Request)
    requires r.pseudo + "|" <= q.pseudo
    ensures KeyOf(r) == KeyOf(q) <==> Absorbs(r, q)
  {
    var n := |r.pseudo| + 1;
    assert q.pseudo == r.pseudo + "|" + q.pseudo[n..];
    assert KeyOf(q)[n..] == q.pseudo[n..] + "|" + q.css && KeyOf(q)[..n] == r.pseudo + "|";
    assert KeyOf(r)[n..] == r.css && KeyOf(r)[..n] == r.pseudo + "|";
  }

  /** With equal keys a shorter name is followed by a bar in the longer one. */
  lemma ShorterIsCut(r: Request, q: Request)
    requires KeyOf(r) == KeyOf(q) && |r.pseudo| < |q.pseudo|
    ensures r.pseudo + "|" <= q.pseudo
  {
    var n := |r.pseudo| + 1;
    assert KeyOf(r)[..n] == r.pseudo + "|" && KeyOf(q)[..n] == q.pseudo[..n];
  }

  /** With equal keys and names of one length there is only one request. */
  lemma SameLengthSame(r: Request, q: Request)
    requires KeyOf(r) == KeyOf(q) && |r.pseudo| == |q.pseudo|
    ensures r == q
  {
    var n := |r.pseudo|;
    assert KeyOf(r)[..n] == r.pseudo && KeyOf(q)[..n] == q.pseudo;
    assert KeyOf(r)[n + 1..] == r.css && KeyOf(q)[n + 1..] == q.css;
  }

  /** Two requests share a key exactly if they are the same or one absorbs the other. */
  lemma SharedKeyExactly(r: Request, q: Request)
    ensures KeyOf(r) == KeyOf(q) <==> r == q || Absorbs(r, q) || Absorbs(q, r)
  {
    if KeyOf(r) == KeyOf(q) {
      if |r.pseudo| < |q.pseudo| {
        ShorterIsCut(r, q);
        AbsorbedKey(r, q);
      } else if |q.pseudo| < |r.pseudo| {
        ShorterIsCut(q, r);
        AbsorbedKey(q, r);
      } else {
        SameLengthSame(r, q);
      }
    }
    if Absorbs(r, q) { AbsorbedKey(r, q); }
    if Absorbs(q, r) { AbsorbedKey(q, r); }
  }

  /**
   Two pseudo-class names never share a key, whatever their styles, exactly if neither is the other
   followed by a bar and more. A bar alone does no harm: `a|b` and `c` are kept apart.
   */
  lemma NamesKeptApartExactly(p: string, q: string)
    requires p != q
    ensures (forall x, y :: KeyOf(Request(p, x)) != KeyOf(Request(q, y))) <==> !(p + "|" <= q) && !(q + "|" <= p)
  {
    if p + "|" <= q {
      Collision(p, q, "");
      assert KeyOf(Request(p, q[|p| + 1..] + "|" + "")) == KeyOf(Request(q, ""));
    } else if q + "|" <= p {
      Collision(q, p, "");
      assert KeyOf(Request(p, "")) == KeyOf(Request(q, p[|q| + 1..] + "|" + ""));
    } else {
      forall x, y
        ensures KeyOf(Request(p, x)) != KeyOf(Request(q, y))
      {
        SharedKeyExactly(Request(p, x), Request(q, y));
      }
    }
  }

  /** Every style of the longer name has one style of the shorter name that collides with it, and no other. */
  lemma Collision(p: string, q: string, y: string)
    requires p + "|" <= q
    ensures forall x :: KeyOf(Request(p, x)) == KeyOf(Request(q, y)) <==> x == q[|p| + 1..] + "|" + y
  {
    forall x
      ensures KeyOf(Request(p, x)) == KeyOf(Request(q, y)) <==> x == q[|p| + 1..] + "|" + y
    {
      AbsorbedKey(Request(p, x), Request(q, y));
    }
  }

  /** So in a valid sheet two requests that were served share class and rule exactly then. */
  lemma SharedRuleExactly(s: Sheet, r: Request, q: Request)
    requires s.Valid() && KeyOf(r) in s.cache && KeyOf(q) in s.cache
    ensures s.cache[KeyOf(r)] == s.cache[KeyOf(q)] <==> r == q || Absorbs(r, q) || Absorbs(q, r)
  {
    DistinctClasses(s, KeyOf(r), KeyOf(q));
    SharedKeyExactly(r, q);
  }
}
