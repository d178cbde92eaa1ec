/**
 The in-memory key stores of the two encryption examples. Each keeps a map of policies and three lists
 of wrapped keys. They differ in how they delete a tenant's keys and in how they look for its largest
 active epoch; the first example is phase one, the second phase two.
 */
module KeyStore {
  import opened Prelude

  /** One wrapped key; only data keys use the epoch. */
  datatype Record = Record(
    id: string,
    tenant: string,
    status: string,
    epoch: int,
    rotatedAt: Option<int>,
    revokedAt: Option<int>)

  /** Key-encryption keys, data keys and blind-index keys. */
  datatype Kind = Kek | Dek | Bik

  datatype Counts = Counts(keks: nat, deks: nat, biks: nat)

  datatype Store = Store(policies: map<string, string>, keks: seq<Record>, deks: seq<Record>, biks: seq<Record>)

  const EMPTY: Store := Store(map[], [], [], [])

  function Records(s: Store, kind: Kind): seq<Record> {
    match kind
    case Kek => s.keks
    case Dek => s.deks
    case Bik => s.biks
  }

  function SetRecords(s: Store, kind: Kind, rs: seq<Record>): Store {
    match kind
    case Kek => s.(keks := rs)
    case Dek => s.(deks := rs)
    case Bik => s.(biks := rs)
  }

  // ---------------------------------------------------------------- lists of records

  /** `filter` on the tenant. */
  function OfTenant(rs: seq<Record>, tenant: string): seq<Record> {
    if rs == [] then []
    else if rs[0].tenant == tenant then [rs[0]] + OfTenant(rs[1..], tenant)
    else OfTenant(rs[1..], tenant)
  }

  function OfOthers(rs: seq<Record>, tenant: string): seq<Record> {
    if rs == [] then []
    else if rs[0].tenant != tenant then [rs[0]] + OfOthers(rs[1..], tenant)
    else OfOthers(rs[1..], tenant)
  }

  /** `find`: the first place whose record has the id, or the length if there is none. */
  function FindId(rs: seq<Record>, id: string): (i: nat)
    ensures i <= |rs| && (i < |rs| ==> rs[i].id == id) && forall j | 0 <= j < i :: rs[j].id != id
  {
    if rs == [] || rs[0].id == id then 0 else 1 + FindId(rs[1..], id)
  }

  /** The first record of the tenant with the id. */
  function FindOf(rs: seq<Record>, tenant: string, id: string): Option<Record> {
    if rs == [] then None
    else if rs[0].tenant == tenant && rs[0].id == id then Some(rs[0])
    else FindOf(rs[1..], tenant, id)
  }

  /** A blind-index key takes the time as its revocation time whatever the new status is. */
  function Stamped(kind: Kind, r: Record, status: string, at: Option<int>): Record {
    if kind.Bik? then r.(status := status, revokedAt := at)
    else if status == "previous" then r.(status := status, rotatedAt := at)
    else if status == "revoked" then r.(status := status, revokedAt := at)
    else r.(status := status)
  }

  function WithStatus(kind: Kind, rs: seq<Record>, id: string, status: string, at: Option<int>): seq<Record> {
    var i := FindId(rs, id);
    if i == |rs| then rs else rs[i := Stamped(kind, rs[i], status, at)]
  }

  function Active(rs: seq<Record>, tenant: string): seq<Record> {
    if rs == [] then []
    else if rs[0].tenant == tenant && rs[0].status == "active" then [rs[0]] + Active(rs[1..], tenant)
    else Active(rs[1..], tenant)
  }

  function Epochs(rs: seq<Record>): (es: seq<int>)
    ensures |es| == |rs|
  {
    seq(|rs|, i requires 0 <= i < |rs| => rs[i].epoch)
  }

  /** `Math.max` */
  function MaxOf(xs: seq<int>): (m: int)
    requires xs != []
    ensures m in xs && forall x | x in xs :: x <= m
  {
    if |xs| == 1 then xs[0]
    else
      assert xs == [xs[0]] + xs[1..];
      var m := MaxOf(xs[1..]);
      if xs[0] > m then xs[0] else m
  }

  // ---------------------------------------------------------------- the two splice loops

  /** The backwards loop of phase one, from place `i` down: it splices and counts. */
  function CountingSplice(rs: seq<Record>, i: nat, tenant: string): (seq<Record>, nat)
    requires i <= |rs|
    decreases i
  {
    if i == 0 then (rs, 0)
    else if rs[i - 1].tenant == tenant then
      var (left, n) := CountingSplice(rs[..i - 1] + rs[i..], i - 1, tenant);
      (left, n + 1)
    else CountingSplice(rs, i - 1, tenant)
  }

  /** That of phase two, which only splices. */
  function PlainSplice(rs: seq<Record>, i: nat, tenant: string): seq<Record>
    requires i <= |rs|
    decreases i
  {
    if i == 0 then rs
    else if rs[i - 1].tenant == tenant then PlainSplice(rs[..i - 1] + rs[i..], i - 1, tenant)
    else PlainSplice(rs, i - 1, tenant)
  }

  lemma {:induction false} TenantConcat(a: seq<Record>, b: seq<Record>, tenant: string)
    ensures OfTenant(a + b, tenant) == OfTenant(a, tenant) + OfTenant(b, tenant)
    decreases |a|
  {
    if a == [] {
      assert a + b == b;
    } else {
      assert (a + b)[1..] == a[1..] + b;
      TenantConcat(a[1..], b, tenant);
    }
  }

  lemma {:induction false} OthersConcat(a: seq<Record>, b: seq<Record>, tenant: string)
    ensures OfOthers(a + b, tenant) == OfOthers(a, tenant) + OfOthers(b, tenant)
    decreases |a|
  {
    if a == [] {
      assert a + b == b;
    } else {
      assert (a + b)[1..] == a[1..] + b;
      OthersConcat(a[1..], b, tenant);
    }
  }

  lemma PartsSnoc(rs: seq<Record>, i: nat, tenant: string)
    requires 0 < i <= |rs|
    ensures var r, own := rs[i - 1], rs[i - 1].tenant == tenant;
            && OfTenant(rs[..i], tenant) == OfTenant(rs[..i - 1], tenant) + (if own then [r] else [])
            && OfOthers(rs[..i], tenant) == OfOthers(rs[..i - 1], tenant) + (if own then [] else [r])
  {
    assert rs[..i] == rs[..i - 1] + [rs[i - 1]];
    TenantConcat(rs[..i - 1], [rs[i - 1]], tenant);
    OthersConcat(rs[..i - 1], [rs[i - 1]], tenant);
  }

  /** Both loops keep the others' records in order; the counting one reports how many it removed. */
  lemma {:induction false} SplicesExactly(rs: seq<Record>, i: nat, tenant: string)
    requires i <= |rs|
    ensures PlainSplice(rs, i, tenant) == OfOthers(rs[..i], tenant) + rs[i..]
    ensures CountingSplice(rs, i, tenant) == (PlainSplice(rs, i, tenant), |OfTenant(rs[..i], tenant)|)
    decreases i
  {
    if i > 0 {
      PartsSnoc(rs, i, tenant);
      if rs[i - 1].tenant == tenant {
        var cut := rs[..i - 1] + rs[i..];
        SplicesExactly(cut, i - 1, tenant);
        assert cut[..i - 1] == rs[..i - 1] && cut[i - 1..] == rs[i..];
      } else {
        SplicesExactly(rs, i - 1, tenant);
        assert rs[i - 1..] == [rs[i - 1]] + rs[i..];
      }
    }
  }

  lemma SplicesWhole(rs: seq<Record>, tenant: string)
    ensures PlainSplice(rs, |rs|, tenant) == OfOthers(rs, tenant)
    ensures CountingSplice(rs, |rs|, tenant) == (OfOthers(rs, tenant), |OfTenant(rs, tenant)|)
  {
    SplicesExactly(rs, |rs|, tenant);
    assert rs[..|rs|] == rs;
  }

  // ---------------------------------------------------------------- operations

  datatype Phase = One | Two

  datatype Op =
    | GetPolicy(tenant: string)
    | UpsertPolicy(tenant: string, policy: string)
    | DeletePolicy(tenant: string)
    | List(kind: Kind, tenant: string)
    | Insert(kind: Kind, record: Record)
    | UpdateStatus(kind: Kind, id: string, status: string, at: Option<int>)
    | GetKekById(tenant: string, id: string)
    | GetDekById(tenant: string, id: string)
    | GetMaxDekEpoch(tenant: string)
    | DeleteAllWrappedMaterial(tenant: string)

  datatype Answer =
    | Done
    | PolicyIs(policy: Option<string>)
    | Listed(records: seq<Record>)
    | Found(record: Option<Record>)
    | Epoch(epoch: Option<int>)
    | Removed(counts: Counts)

  /** Phase one looks whether there are active records, phase two whether there are epochs. */
  function MaxEpoch(phase: Phase, deks: seq<Record>, tenant: string): Option<int> {
    match phase
    case One =>
      var active := Active(deks, tenant);
      if |active| == 0 then None else Some(MaxOf(Epochs(active)))
    case Two =>
      var epochs := Epochs(Active(deks, tenant));
      if |epochs| != 0 then Some(MaxOf(epochs)) else None
  }

  /** Phase one counts while it splices, phase two counts first. */
  function DeleteAll(phase: Phase, s: Store, tenant: string): (Store, Counts) {
    match phase
    case One =>
      var (keks, k) := CountingSplice(s.keks, |s.keks|, tenant);
      var (deks, d) := CountingSplice(s.deks, |s.deks|, tenant);
      var (biks, b) := CountingSplice(s.biks, |s.biks|, tenant);
      (s.(keks := keks, deks := deks, biks := biks), Counts(k, d, b))
    case Two =>
      var counts := Counts(|OfTenant(s.keks, tenant)|, |OfTenant(s.deks, tenant)|, |OfTenant(s.biks, tenant)|);
      var keks := PlainSplice(s.keks, |s.keks|, tenant);
      var deks := PlainSplice(s.deks, |s.deks|, tenant);
      var biks := PlainSplice(s.biks, |s.biks|, tenant);
      (s.(keks := keks, deks := deks, biks := biks), counts)
  }

  function Step(phase: Phase, s: Store, op: Op): (Store, Answer) {
    match op
    case GetPolicy(t) => (s, PolicyIs(if t in s.policies then Some(s.policies[t]) else None))
    case UpsertPolicy(t, p) => (s.(policies := s.policies[t := p]), Done)
    case DeletePolicy(t) => (s.(policies := s.policies - {t}), Done)
    case List(kind, t) => (s, Listed(OfTenant(Records(s, kind), t)))
    case Insert(kind, r) => (SetRecords(s, kind, Records(s, kind) + [r]), Done)
    case UpdateStatus(kind, id, status, at) =>
      (SetRecords(s, kind, WithStatus(kind, Records(s, kind), id, status, at)), Done)
    case GetKekById(t, id) => (s, Found(FindOf(s.keks, t, id)))
    case GetDekById(t, id) => (s, Found(FindOf(s.deks, t, id)))
    case GetMaxDekEpoch(t) => (s, Epoch(MaxEpoch(phase, s.deks, t)))
    case DeleteAllWrappedMaterial(t) => var (u, counts) := DeleteAll(phase, s, t); (u, Removed(counts))
  }

  /** A sequence of operations, with all their answers. */
  function Run(phase: Phase, s: Store, ops: seq<Op>): (r: (Store, seq<Answer>))
    ensures |r.1| == |ops|
    decreases |ops|
  {
    if ops == [] then (s, [])
    else
      var (t, a) := Step(phase, s, ops[0]);
      var (u, rest) := Run(phase, t, ops[1..]);
      (u, [a] + rest)
  }

  // ---------------------------------------------------------------- the stores as objects

  /** The counting splice loop, from the back. */
  method SpliceCounting(rs: seq<Record>, tenant: string) returns (left: seq<Record>, n: nat)
    ensures (left, n) == CountingSplice(rs, |rs|, tenant)
    ensures left == OfOthers(rs, tenant) && n == |OfTenant(rs, tenant)|
  {
    left, n := rs, 0;
    var i := |rs|;
    while i > 0
      invariant 0 <= i <= |left|
      invariant var (l, m) := CountingSplice(left, i, tenant); (l, m + n) == CountingSplice(rs, |rs|, tenant)
    {
      i := i - 1;
      if left[i].tenant == tenant {
        left := left[..i] + left[i + 1..];
        n := n + 1;
      }
    }
    SplicesWhole(rs, tenant);
  }

  /** The splice loop without a count. */
  method Splice(rs: seq<Record>, tenant: string) returns (left: seq<Record>)
    ensures left == PlainSplice(rs, |rs|, tenant) == OfOthers(rs, tenant)
  {
    left := rs;
    var i := |rs|;
    while i > 0
      invariant 0 <= i <= |left|
      invariant PlainSplice(left, i, tenant) == PlainSplice(rs, |rs|, tenant)
    {
      i := i - 1;
      if left[i].tenant == tenant {
        left := left[..i] + left[i + 1..];
      }
    }
    SplicesWhole(rs, tenant);
  }

  class InMemoryStore {
    const phase: Phase
    var policies: map<string, string>
    var keks: seq<Record>
    var deks: seq<Record>
    var biks: seq<Record>

    ghost function State(): Store
      reads this
    {
      Store(policies, keks, deks, biks)
    }

    constructor (phase: Phase)
      ensures this.phase == phase && State() == EMPTY
    {
      this.phase := phase;
      policies, keks, deks, biks := map[], [], [], [];
    }

    method Insert(kind: Kind, r: Record)
      modifies this
      ensures State() == SetRecords(old(State()), kind, old(Records(State(), kind)) + [r])
    {
      match kind
      case Kek => keks := keks + [r];
      case Dek => deks := deks + [r];
      case Bik => biks := biks + [r];
    }

    /** Looks for the first record with the id and changes it in place; without one nothing happens. */
    method UpdateStatus(kind: Kind, id: string, status: string, at: Option<int>)
      modifies this
      ensures State() == SetRecords(old(State()), kind, WithStatus(kind, old(Records(State(), kind)), id, status, at))
    {
      var rs := match kind case Kek => keks case Dek => deks case Bik => biks;
      var i := FindId(rs, id);
      if i == |rs| { return; }
      rs := rs[i := Stamped(kind, rs[i], status, at)];
      match kind
      case Kek => keks := rs;
      case Dek => deks := rs;
      case Bik => biks := rs;
    }

    /** Deletion as in the first example: the splice loops count what they remove. */
    method DeleteAllPhase1(tenant: string) returns (c: Counts)
      modifies `keks, `deks, `biks
      ensures (State(), c) == DeleteAll(One, old(State()), tenant)
    {
      var k, d, b;
      keks, k := SpliceCounting(keks, tenant);
      deks, d := SpliceCounting(deks, tenant);
      biks, b := SpliceCounting(biks, tenant);
      c := Counts(k, d, b);
    }

    /** Deletion as in the second example: count first, then splice. */
    method DeleteAllPhase2(tenant: string) returns (c: Counts)
      modifies `keks, `deks, `biks
      ensures (State(), c) == DeleteAll(Two, old(State()), tenant)
    {
      c := Counts(|OfTenant(keks, tenant)|, |OfTenant(deks, tenant)|, |OfTenant(biks, tenant)|);
      keks := Splice(keks, tenant);
      deks := Splice(deks, tenant);
      biks := Splice(biks, tenant);
    }

    /** Any one operation. */
    method Perform(op: Op) returns (a: Answer)
      modifies this
      ensures (State(), a) == Step(phase, old(State()), op)
    {
      a := Done;
      match op
      case GetPolicy(t) => a := PolicyIs(if t in policies then Some(policies[t]) else None);
      case UpsertPolicy(t, p) => policies := policies[t := p];
      case DeletePolicy(t) => policies := policies - {t};
      case List(kind, t) => a := Listed(OfTenant(match kind case Kek => keks case Dek => deks case Bik => biks, t));
      case Insert(kind, r) => Insert(kind, r);
      case UpdateStatus(kind, id, status, at) => UpdateStatus(kind, id, status, at);
      case GetKekById(t, id) => a := Found(FindOf(keks, t, id));
      case GetDekById(t, id) => a := Found(FindOf(deks, t, id));
      case GetMaxDekEpoch(t) => a := Epoch(MaxEpoch(phase, deks, t));
      case DeleteAllWrappedMaterial(t) =>
        var c;
        if phase == One { c := DeleteAllPhase1(t); } else { c := DeleteAllPhase2(t); }
        a := Removed(c);
    }

    /** Any sequence of operations. */
    method Serve(ops: seq<Op>) returns (answers: seq<Answer>)
      modifies this
      ensures (State(), answers) == Run(phase, old(State()), ops)
    {
      answers := [];
      assert ops[0..] == ops && [] + Run(phase, State(), ops).1 == Run(phase, State(), ops).1;
      for i := 0 to |ops|
        invariant Extends(Run(phase, State(), ops[i..]), answers, Run(phase, old(State()), ops))
      {
        var a := Perform(ops[i]);
        assert ops[i..][1..] == ops[i + 1..];
        assert forall rest :: (answers + [a]) + rest == answers + ([a] + rest);
        answers := answers + [a];
      }
      assert answers + [] == answers;
    }
  }

  /** A run from here on completes the whole run, of which some answers have been given. */
  predicate Extends(tail: (Store, seq<Answer>), given: seq<Answer>, whole: (Store, seq<Answer>)) {
    whole == (tail.0, given + tail.1)
  }
}
