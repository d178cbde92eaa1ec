/** What the two key stores promise over whole sequences of operations. */
module KeyStoreRuns {
  import opened Prelude
  import opened KeyStore

  // ---------------------------------------------------------------- the two stores agree

  lemma DeletionsAgree(s: Store, tenant: string)
    ensures DeleteAll(One, s, tenant) == DeleteAll(Two, s, tenant)
    ensures DeleteAll(One, s, tenant) == (
              s.(keks := OfOthers(s.keks, tenant), deks := OfOthers(s.deks, tenant), biks := OfOthers(s.biks, tenant)),
              Counts(|OfTenant(s.keks, tenant)|, |OfTenant(s.deks, tenant)|, |OfTenant(s.biks, tenant)|))
  {
    SplicesWhole(s.keks, tenant);
    SplicesWhole(s.deks, tenant);
    SplicesWhole(s.biks, tenant);
  }

  lemma StepsAgree(s: Store, op: Op)
    ensures Step(One, s, op) == Step(Two, s, op)
  {
    if op.DeleteAllWrappedMaterial? { DeletionsAgree(s, op.tenant); }
  }

  /** No sequence of operations tells the two stores apart: same answers, same state. */
  lemma {:induction false} RunsAgree(s: Store, ops: seq<Op>)
    ensures Run(One, s, ops) == Run(Two, s, ops)
    decreases |ops|
  {
    if ops != [] {
      StepsAgree(s, ops[0]);
      RunsAgree(Step(One, s, ops[0]).0, ops[1..]);
    }
  }

  // ---------------------------------------------------------------- what operations do, seen by later ones

  /** The policy that a sequence of operations leaves to a tenant: the last one set, unless deleted since. */
  function PolicyAfter(ops: seq<Op>, tenant: string, before: Option<string>): Option<string> {
    if ops == [] then before
    else
      var op := ops[|ops| - 1];
      if op == DeletePolicy(tenant) then None
      else if op.UpsertPolicy? && op.tenant == tenant then Some(op.policy)
      else PolicyAfter(ops[..|ops| - 1], tenant, before)
  }

  function PolicyOf(phase: Phase, s: Store, tenant: string): Option<string> {
    match Step(phase, s, GetPolicy(tenant)).1
    case PolicyIs(p) => p
    case _ => None
  }

  lemma PolicyStep(phase: Phase, s: Store, op: Op, tenant: string)
    ensures PolicyOf(phase, Step(phase, s, op).0, tenant) == PolicyAfter([op], tenant, PolicyOf(phase, s, tenant))
  {
    assert [op][..0] == [];
  }

  lemma {:induction false} PolicyCons(op: Op, ops: seq<Op>, tenant: string, before: Option<string>)
    ensures PolicyAfter([op] + ops, tenant, before) == PolicyAfter(ops, tenant, PolicyAfter([op], tenant, before))
    decreases |ops|
  {
    var all := [op] + ops;
    if ops == [] {
      assert all == [op];
    } else {
      assert all[..|all| - 1] == [op] + ops[..|ops| - 1];
      PolicyCons(op, ops[..|ops| - 1], tenant, before);
    }
  }

  /** Over every sequence of operations a tenant's policy is the one it set last, unless it deleted it since. */
  lemma {:induction false} PolicyExactly(phase: Phase, s: Store, ops: seq<Op>, tenant: string)
    ensures PolicyOf(phase, Run(phase, s, ops).0, tenant) == PolicyAfter(ops, tenant, PolicyOf(phase, s, tenant))
    decreases |ops|
  {
    if ops != [] {
      PolicyStep(phase, s, ops[0], tenant);
      PolicyExactly(phase, Step(phase, s, ops[0]).0, ops[1..], tenant);
      PolicyCons(ops[0], ops[1..], tenant, PolicyOf(phase, s, tenant));
      assert [ops[0]] + ops[1..] == ops;
    }
  }

  /** The list that a store answers with. */
  function ListOf(phase: Phase, s: Store, kind: Kind, tenant: string): seq<Record> {
    match Step(phase, s, List(kind, tenant)).1
    case Listed(rs) => rs
    case _ => []
  }

  /** An inserted record is listed at the end of its tenant's list of its kind, and nowhere else. */
  lemma InsertedIsListed(phase: Phase, s: Store, kind: Kind, r: Record, other: Kind, tenant: string)
    ensures ListOf(phase, Step(phase, s, Insert(kind, r)).0, other, tenant) ==
            ListOf(phase, s, other, tenant) + (if other == kind && tenant == r.tenant then [r] else [])
  {
    TenantConcat(Records(s, kind), [r], tenant);
  }

  lemma {:induction false} FindOfExactly(rs: seq<Record>, tenant: string, id: string)
    ensures match FindOf(rs, tenant, id)
            case None => forall r | r in rs :: r.tenant != tenant || r.id != id
            case Some(found) =>
              exists i | 0 <= i < |rs| ::
                && rs[i] == found && found.tenant == tenant && found.id == id
                && forall j | 0 <= j < i :: rs[j].tenant != tenant || rs[j].id != id
  {
    if rs != [] && !(rs[0].tenant == tenant && rs[0].id == id) {
      FindOfExactly(rs[1..], tenant, id);
      if FindOf(rs[1..], tenant, id).Some? {
        var tail := rs[1..];
        var i :| 0 <= i < |tail| && tail[i] == FindOf(tail, tenant, id).value
                 && forall j | 0 <= j < i :: tail[j].tenant != tenant || tail[j].id != id;
        assert rs[i + 1] == tail[i];
        forall j | 0 <= j < i + 1 ensures rs[j].tenant != tenant || rs[j].id != id {
          if j > 0 { assert rs[j] == tail[j - 1]; }
        }
      } else {
        assert forall r | r in rs :: r == rs[0] || r in rs[1..];
      }
    }
  }

  /** A lookup by id answers with the tenant's first record that has it, and with nothing if there is none. */
  lemma LookupExactly(phase: Phase, s: Store, tenant: string, id: string)
    ensures Step(phase, s, GetKekById(tenant, id)).1 == Found(FindOf(s.keks, tenant, id))
    ensures Step(phase, s, GetDekById(tenant, id)).1 == Found(FindOf(s.deks, tenant, id))
    ensures FindOf(s.keks, tenant, id).None? <==> forall r | r in s.keks :: r.tenant != tenant || r.id != id
    ensures FindOf(s.deks, tenant, id).None? <==> forall r | r in s.deks :: r.tenant != tenant || r.id != id
  {
    FindOfExactly(s.keks, tenant, id);
    FindOfExactly(s.deks, tenant, id);
  }

  /**
   A status update changes the first record with the id and no other: its status, and one of its times.
   For a blind-index key that is always the time of revocation; for the others the time of rotation if
   it becomes previous, that of revocation if it becomes revoked, and else none.
   */
  lemma UpdateEffect(phase: Phase, s: Store, kind: Kind, id: string, status: string, at: Option<int>)
    ensures var rs, rs' := Records(s, kind), Records(Step(phase, s, UpdateStatus(kind, id, status, at)).0, kind);
            var i := FindId(rs, id);
            && |rs'| == |rs| && (forall j | 0 <= j < |rs| && j != i :: rs'[j] == rs[j])
            && (i < |rs| ==>
                && rs'[i].id == id && rs'[i].tenant == rs[i].tenant && rs'[i].epoch == rs[i].epoch
                && rs'[i].status == status
                && rs'[i].rotatedAt == (if kind != Bik && status == "previous" then at else rs[i].rotatedAt)
                && rs'[i].revokedAt == (if kind == Bik || status == "revoked" then at else rs[i].revokedAt))
  {
  }

  // ---------------------------------------------------------------- tenants

  /** Which tenant each id of a list belongs to. */
  type Owner = (Kind, string) -> string

  predicate OwnedList(rs: seq<Record>, kind: Kind, owner: Owner) {
    forall i | 0 <= i < |rs| :: owner(kind, rs[i].id) == rs[i].tenant
  }

  predicate Owned(s: Store, owner: Owner) {
    OwnedList(s.keks, Kek, owner) && OwnedList(s.deks, Dek, owner) && OwnedList(s.biks, Bik, owner)
  }

  /** Only records of the owner are inserted under an id. */
  predicate Honest(op: Op, owner: Owner) {
    op.Insert? ==> owner(op.kind, op.record.id) == op.record.tenant
  }

  /** Whose operation it is. A status update names no tenant, only an id. */
  function TenantOf(op: Op, owner: Owner): string {
    match op
    case Insert(_, r) => r.tenant
    case UpdateStatus(kind, id, _, _) => owner(kind, id)
    case _ => op.tenant
  }

  /** What concerns one tenant, as a store of its own. */
  function View(s: Store, tenant: string): Store {
    Store(
      if tenant in s.policies then map[tenant := s.policies[tenant]] else map[],
      OfTenant(s.keks, tenant), OfTenant(s.deks, tenant), OfTenant(s.biks, tenant))
  }

  // ---------------------------------------------------------------- lists seen by one tenant

  lemma {:induction false} ViewTwice(rs: seq<Record>, tenant: string)
    ensures OfTenant(OfTenant(rs, tenant), tenant) == OfTenant(rs, tenant)
    ensures OfOthers(OfTenant(rs, tenant), tenant) == []
  {
    if rs != [] {
      ViewTwice(rs[1..], tenant);
      if rs[0].tenant == tenant { assert OfTenant(rs, tenant)[1..] == OfTenant(rs[1..], tenant); }
    }
  }

  lemma {:induction false} ViewOthers(rs: seq<Record>, deleted: string, tenant: string)
    ensures OfTenant(OfOthers(rs, deleted), tenant) == if deleted == tenant then [] else OfTenant(rs, tenant)
  {
    if rs != [] {
      ViewOthers(rs[1..], deleted, tenant);
      if rs[0].tenant != deleted {
        assert OfOthers(rs, deleted)[1..] == OfOthers(rs[1..], deleted);
      }
    }
  }

  lemma {:induction false} ViewActive(rs: seq<Record>, tenant: string)
    ensures Active(OfTenant(rs, tenant), tenant) == Active(rs, tenant)
  {
    if rs != [] {
      ViewActive(rs[1..], tenant);
      if rs[0].tenant == tenant { assert OfTenant(rs, tenant)[1..] == OfTenant(rs[1..], tenant); }
    }
  }

  lemma {:induction false} ViewFind(rs: seq<Record>, tenant: string, id: string)
    ensures FindOf(OfTenant(rs, tenant), tenant, id) == FindOf(rs, tenant, id)
  {
    if rs != [] {
      ViewFind(rs[1..], tenant, id);
      if rs[0].tenant == tenant { assert OfTenant(rs, tenant)[1..] == OfTenant(rs[1..], tenant); }
    }
  }

  lemma UpdateHead(kind: Kind, rs: seq<Record>, id: string, status: string, at: Option<int>)
    requires rs != []
    ensures WithStatus(kind, rs, id, status, at) ==
            if rs[0].id == id then [Stamped(kind, rs[0], status, at)] + rs[1..]
            else [rs[0]] + WithStatus(kind, rs[1..], id, status, at)
  {
  }

  lemma OwnedTail(rs: seq<Record>, kind: Kind, owner: Owner)
    requires rs != [] && OwnedList(rs, kind, owner)
    ensures OwnedList(rs[1..], kind, owner) && owner(kind, rs[0].id) == rs[0].tenant
  {
  }

  lemma ViewCons(r: Record, rest: seq<Record>, tenant: string)
    ensures OfTenant([r] + rest, tenant) == if r.tenant == tenant then [r] + OfTenant(rest, tenant) else OfTenant(rest, tenant)
  {
    assert ([r] + rest)[1..] == rest;
  }

  lemma UpdateKeepsOwners(kind: Kind, rs: seq<Record>, id: string, status: string, at: Option<int>, owner: Owner)
    requires OwnedList(rs, kind, owner)
    ensures OwnedList(WithStatus(kind, rs, id, status, at), kind, owner)
  {
  }

  /** An update by id does not show in the view of a tenant that does not own the id. */
  lemma {:induction false} ViewForeignUpdate(
      kind: Kind, rs: seq<Record>, id: string, status: string, at: Option<int>, owner: Owner, tenant: string)
    requires OwnedList(rs, kind, owner) && owner(kind, id) != tenant
    ensures OfTenant(WithStatus(kind, rs, id, status, at), tenant) == OfTenant(rs, tenant)
  {
    if rs != [] {
      OwnedTail(rs, kind, owner);
      UpdateHead(kind, rs, id, status, at);
      if rs[0].id == id {
        ViewCons(Stamped(kind, rs[0], status, at), rs[1..], tenant);
      } else {
        ViewForeignUpdate(kind, rs[1..], id, status, at, owner, tenant);
        ViewCons(rs[0], WithStatus(kind, rs[1..], id, status, at), tenant);
      }
    }
  }

  /** In the owner's view it is the same update. */
  lemma {:induction false} ViewOwnUpdate(
      kind: Kind, rs: seq<Record>, id: string, status: string, at: Option<int>, owner: Owner, tenant: string)
    requires OwnedList(rs, kind, owner) && owner(kind, id) == tenant
    ensures OfTenant(WithStatus(kind, rs, id, status, at), tenant) ==
            WithStatus(kind, OfTenant(rs, tenant), id, status, at)
  {
    if rs != [] {
      OwnedTail(rs, kind, owner);
      UpdateHead(kind, rs, id, status, at);
      var rest := OfTenant(rs[1..], tenant);
      if rs[0].id == id {
        UpdateFirst(kind, rs[0], rs[1..], id, status, at, tenant);
      } else {
        ViewOwnUpdate(kind, rs[1..], id, status, at, owner, tenant);
        ViewCons(rs[0], WithStatus(kind, rs[1..], id, status, at), tenant);
        if rs[0].tenant == tenant { UpdateLater(kind, rs[0], rest, id, status, at); }
      }
    }
  }

  lemma UpdateFirst(kind: Kind, r: Record, rest: seq<Record>, id: string, status: string, at: Option<int>, tenant: string)
    requires r.id == id && r.tenant == tenant
    ensures OfTenant([Stamped(kind, r, status, at)] + rest, tenant) ==
            WithStatus(kind, OfTenant([r] + rest, tenant), id, status, at)
  {
    ViewCons(r, rest, tenant);
    ViewCons(Stamped(kind, r, status, at), rest, tenant);
    UpdateHead(kind, [r] + OfTenant(rest, tenant), id, status, at);
  }

  lemma UpdateLater(kind: Kind, r: Record, rest: seq<Record>, id: string, status: string, at: Option<int>)
    requires r.id != id
    ensures WithStatus(kind, [r] + rest, id, status, at) == [r] + WithStatus(kind, rest, id, status, at)
  {
    UpdateHead(kind, [r] + rest, id, status, at);
    assert ([r] + rest)[1..] == rest;
  }

  // ---------------------------------------------------------------- one step seen by one tenant

  lemma DeletionExactly(phase: Phase, s: Store, tenant: string)
    ensures DeleteAll(phase, s, tenant) == (
              s.(keks := OfOthers(s.keks, tenant), deks := OfOthers(s.deks, tenant), biks := OfOthers(s.biks, tenant)),
              Counts(|OfTenant(s.keks, tenant)|, |OfTenant(s.deks, tenant)|, |OfTenant(s.biks, tenant)|))
  {
    DeletionsAgree(s, tenant);
  }

  lemma {:induction false} OthersOwned(rs: seq<Record>, tenant: string, kind: Kind, owner: Owner)
    requires OwnedList(rs, kind, owner)
    ensures OwnedList(OfOthers(rs, tenant), kind, owner)
  {
    if rs != [] {
      OwnedTail(rs, kind, owner);
      OthersOwned(rs[1..], tenant, kind, owner);
    }
  }

  lemma OwnedStep(phase: Phase, s: Store, op: Op, owner: Owner)
    requires Owned(s, owner) && Honest(op, owner)
    ensures Owned(Step(phase, s, op).0, owner)
  {
    if op.DeleteAllWrappedMaterial? {
      DeletionExactly(phase, s, op.tenant);
      OthersOwned(s.keks, op.tenant, Kek, owner);
      OthersOwned(s.deks, op.tenant, Dek, owner);
      OthersOwned(s.biks, op.tenant, Bik, owner);
    } else if op.UpdateStatus? {
      UpdateKeepsOwners(op.kind, Records(s, op.kind), op.id, op.status, op.at, owner);
    }
  }

  lemma ViewSnoc(rs: seq<Record>, r: Record, tenant: string)
    ensures OfTenant(rs + [r], tenant) == if r.tenant == tenant then OfTenant(rs, tenant) + [r] else OfTenant(rs, tenant)
  {
    TenantConcat(rs, [r], tenant);
  }

  lemma ViewDeletion(phase: Phase, s: Store, deleted: string, tenant: string)
    ensures var (u, v) := (DeleteAll(phase, s, deleted).0, View(s, tenant));
            View(u, tenant) == if deleted == tenant then v.(keks := [], deks := [], biks := []) else v
  {
    DeletionExactly(phase, s, deleted);
    ViewOthers(s.keks, deleted, tenant);
    ViewOthers(s.deks, deleted, tenant);
    ViewOthers(s.biks, deleted, tenant);
  }

  lemma ViewSet(s: Store, kind: Kind, rs: seq<Record>, tenant: string)
    ensures View(SetRecords(s, kind, rs), tenant) == SetRecords(View(s, tenant), kind, OfTenant(rs, tenant))
    ensures Records(View(s, tenant), kind) == OfTenant(Records(s, kind), tenant)
    ensures SetRecords(View(s, tenant), kind, Records(View(s, tenant), kind)) == View(s, tenant)
  {
  }

  lemma RecordsOwned(s: Store, kind: Kind, owner: Owner)
    requires Owned(s, owner)
    ensures OwnedList(Records(s, kind), kind, owner)
  {
  }

  /** An operation of another tenant does not show. */
  lemma ForeignStep(phase: Phase, s: Store, op: Op, owner: Owner, tenant: string)
    requires Owned(s, owner) && Honest(op, owner) && TenantOf(op, owner) != tenant
    ensures View(Step(phase, s, op).0, tenant) == View(s, tenant)
  {
    match op
    case Insert(kind, r) =>
      ViewSet(s, kind, Records(s, kind) + [r], tenant);
      ViewSnoc(Records(s, kind), r, tenant);
    case UpdateStatus(kind, id, status, at) =>
      RecordsOwned(s, kind, owner);
      ViewSet(s, kind, WithStatus(kind, Records(s, kind), id, status, at), tenant);
      ViewForeignUpdate(kind, Records(s, kind), id, status, at, owner, tenant);
    case DeleteAllWrappedMaterial(t) => ViewDeletion(phase, s, t, tenant);
    case _ =>
  }

  /** The view is what the step does to the view, and the answers are the same. */
  predicate Commutes(phase: Phase, s: Store, op: Op, tenant: string) {
    var (u, a) := Step(phase, s, op);
    Step(phase, View(s, tenant), op) == (View(u, tenant), a)
  }

  /** An operation of the tenant does to its view what it does to the store, with the same answer. */
  lemma OwnStep(phase: Phase, s: Store, op: Op, owner: Owner, tenant: string)
    requires Owned(s, owner) && TenantOf(op, owner) == tenant
    ensures Commutes(phase, s, op, tenant)
  {
    if op.Insert? || op.UpdateStatus? || op.DeleteAllWrappedMaterial? {
      OwnWrite(phase, s, op, owner, tenant);
    } else {
      OwnOther(phase, s, op, owner, tenant);
    }
  }

  lemma OwnWrite(phase: Phase, s: Store, op: Op, owner: Owner, tenant: string)
    requires Owned(s, owner) && TenantOf(op, owner) == tenant
    requires op.Insert? || op.UpdateStatus? || op.DeleteAllWrappedMaterial?
    ensures Commutes(phase, s, op, tenant)
  {
    match op
    case Insert(kind, r) =>
      ViewSet(s, kind, Records(s, kind) + [r], tenant);
      ViewSnoc(Records(s, kind), r, tenant);
    case UpdateStatus(kind, id, status, at) =>
      RecordsOwned(s, kind, owner);
      ViewSet(s, kind, WithStatus(kind, Records(s, kind), id, status, at), tenant);
      ViewOwnUpdate(kind, Records(s, kind), id, status, at, owner, tenant);
    case DeleteAllWrappedMaterial(_) => OwnDeletion(phase, s, tenant);
  }

  lemma OwnOther(phase: Phase, s: Store, op: Op, owner: Owner, tenant: string)
    requires Owned(s, owner) && TenantOf(op, owner) == tenant
    requires !op.Insert? && !op.UpdateStatus? && !op.DeleteAllWrappedMaterial?
    ensures Commutes(phase, s, op, tenant)
  {
    match op
    case List(kind, _) => ViewTwice(Records(s, kind), tenant);
    case GetKekById(_, id) => ViewFind(s.keks, tenant, id);
    case GetDekById(_, id) => ViewFind(s.deks, tenant, id);
    case GetMaxDekEpoch(_) => ViewActive(s.deks, tenant);
    case UpsertPolicy(_, p) => assert View(s, tenant).policies[tenant := p] == map[tenant := p];
    case DeletePolicy(_) => assert View(s, tenant).policies - {tenant} == map[];
    case GetPolicy(_) =>
  }

  lemma OwnDeletion(phase: Phase, s: Store, tenant: string)
    ensures var (u, c) := DeleteAll(phase, s, tenant); DeleteAll(phase, View(s, tenant), tenant) == (View(u, tenant), c)
  {
    ViewDeletion(phase, s, tenant, tenant);
    DeletionExactly(phase, s, tenant);
    DeletionExactly(phase, View(s, tenant), tenant);
    ViewTwice(s.keks, tenant);
    ViewTwice(s.deks, tenant);
    ViewTwice(s.biks, tenant);
  }

  // ---------------------------------------------------------------- whole runs

  function OwnOps(ops: seq<Op>, owner: Owner, tenant: string): seq<Op> {
    if ops == [] then []
    else if TenantOf(ops[0], owner) == tenant then [ops[0]] + OwnOps(ops[1..], owner, tenant)
    else OwnOps(ops[1..], owner, tenant)
  }

  /** The answers to the tenant's operations. */
  function OwnAnswers(ops: seq<Op>, answers: seq<Answer>, owner: Owner, tenant: string): seq<Answer>
    requires |ops| == |answers|
  {
    if ops == [] then []
    else if TenantOf(ops[0], owner) == tenant then [answers[0]] + OwnAnswers(ops[1..], answers[1..], owner, tenant)
    else OwnAnswers(ops[1..], answers[1..], owner, tenant)
  }

  /**
   Each tenant has a store of its own: over every sequence of operations, what concerns a tenant and
   every answer it gets is what a store with its records alone gives for its operations alone.
   */
  lemma {:induction false} TenantsApart(phase: Phase, s: Store, ops: seq<Op>, owner: Owner, tenant: string)
    requires Owned(s, owner) && forall i | 0 <= i < |ops| :: Honest(ops[i], owner)
    ensures var (u, answers) := Run(phase, s, ops);
            Run(phase, View(s, tenant), OwnOps(ops, owner, tenant)) ==
            (View(u, tenant), OwnAnswers(ops, answers, owner, tenant))
    decreases |ops|
  {
    if ops != [] {
      var op := ops[0];
      var t := Step(phase, s, op).0;
      OwnedStep(phase, s, op, owner);
      TenantsApart(phase, t, ops[1..], owner, tenant);
      if TenantOf(op, owner) == tenant {
        OwnStep(phase, s, op, owner, tenant);
        assert OwnOps(ops, owner, tenant)[1..] == OwnOps(ops[1..], owner, tenant);
      } else {
        ForeignStep(phase, s, op, owner, tenant);
      }
    }
  }

  /** So operations on other tenants' records never change a tenant's policy, lists or largest active epoch. */
  lemma {:induction false} OthersNeverShow(phase: Phase, s: Store, ops: seq<Op>, owner: Owner, tenant: string)
    requires Owned(s, owner)
    requires forall i | 0 <= i < |ops| :: Honest(ops[i], owner) && TenantOf(ops[i], owner) != tenant
    ensures var u := Run(phase, s, ops).0;
            View(u, tenant) == View(s, tenant) && MaxEpoch(phase, u.deks, tenant) == MaxEpoch(phase, s.deks, tenant)
  {
    TenantsApart(phase, s, ops, owner, tenant);
    NoneOwn(ops, owner, tenant);
    ViewActive(s.deks, tenant);
    ViewActive(Run(phase, s, ops).0.deks, tenant);
  }

  lemma {:induction false} NoneOwn(ops: seq<Op>, owner: Owner, tenant: string)
    requires forall i | 0 <= i < |ops| :: TenantOf(ops[i], owner) != tenant
    ensures OwnOps(ops, owner, tenant) == []
  {
    if ops != [] { NoneOwn(ops[1..], owner, tenant); }
  }

  // ---------------------------------------------------------------- unique ids

  function Inserted(ops: seq<Op>, kind: Kind): seq<Record> {
    if ops == [] then []
    else if ops[0].Insert? && ops[0].kind == kind then [ops[0].record] + Inserted(ops[1..], kind)
    else Inserted(ops[1..], kind)
  }

  /** All records a list ever gets. */
  function Ever(s: Store, ops: seq<Op>, kind: Kind): seq<Record> {
    Records(s, kind) + Inserted(ops, kind)
  }

  predicate UniqueIds(rs: seq<Record>) {
    forall i, j | 0 <= i < j < |rs| :: rs[i].id != rs[j].id
  }

  /** The tenant of the record with the id, if there ever is one. */
  function OwnerIn(s: Store, ops: seq<Op>): Owner {
    (kind: Kind, id: string) =>
      var rs := Ever(s, ops, kind);
      var i := FindId(rs, id);
      if i < |rs| then rs[i].tenant else ""
  }

  lemma {:induction false} InsertedHas(ops: seq<Op>, i: nat)
    requires i < |ops| && ops[i].Insert?
    ensures ops[i].record in Inserted(ops, ops[i].kind)
  {
    if i > 0 { InsertedHas(ops[1..], i - 1); }
  }

  lemma UniqueIdsFixOwner(s: Store, ops: seq<Op>, kind: Kind, r: Record)
    requires UniqueIds(Ever(s, ops, kind)) && r in Ever(s, ops, kind)
    ensures OwnerIn(s, ops)(kind, r.id) == r.tenant
  {
    var rs := Ever(s, ops, kind);
    var j :| 0 <= j < |rs| && rs[j] == r;
    var i := FindId(rs, r.id);
    assert i == j;
  }

  /** If ids are unique in each list, every id has an owner and the results above apply. */
  lemma UniqueIdsHaveOwners(s: Store, ops: seq<Op>)
    requires forall kind :: UniqueIds(Ever(s, ops, kind))
    ensures Owned(s, OwnerIn(s, ops))
    ensures forall i | 0 <= i < |ops| :: Honest(ops[i], OwnerIn(s, ops))
  {
    forall kind: Kind, i | 0 <= i < |Records(s, kind)|
      ensures OwnerIn(s, ops)(kind, Records(s, kind)[i].id) == Records(s, kind)[i].tenant
    {
      assert Ever(s, ops, kind)[i] == Records(s, kind)[i];
      UniqueIdsFixOwner(s, ops, kind, Records(s, kind)[i]);
    }
    assert Records(s, Kek) == s.keks && Records(s, Dek) == s.deks && Records(s, Bik) == s.biks;
    forall i | 0 <= i < |ops| && ops[i].Insert?
      ensures Honest(ops[i], OwnerIn(s, ops))
    {
      InsertedHas(ops, i);
      UniqueIdsFixOwner(s, ops, ops[i].kind, ops[i].record);
    }
  }

  // ---------------------------------------------------------------- without unique ids

  lemma {:induction false} UpdateAt(rs: seq<Record>, i: nat, r: Record, tenant: string)
    requires i < |rs| && r.tenant == rs[i].tenant != tenant
    ensures OfTenant(rs[i := r], tenant) == OfTenant(rs, tenant)
  {
    if i > 0 {
      assert rs[i := r][1..] == rs[1..][i - 1 := r];
      UpdateAt(rs[1..], i - 1, r, tenant);
    } else {
      assert rs[i := r][1..] == rs[1..];
    }
  }

  lemma {:induction false} UpdateOwn(rs: seq<Record>, i: nat, r: Record, tenant: string)
    requires i < |rs| && r.tenant == rs[i].tenant == tenant && r != rs[i]
    ensures OfTenant(rs[i := r], tenant) != OfTenant(rs, tenant)
  {
    if i > 0 {
      assert rs[i := r][1..] == rs[1..][i - 1 := r];
      UpdateOwn(rs[1..], i - 1, r, tenant);
      if rs[0].tenant == tenant {
        assert OfTenant(rs[i := r], tenant)[1..] == OfTenant(rs[1..][i - 1 := r], tenant);
        assert OfTenant(rs, tenant)[1..] == OfTenant(rs[1..], tenant);
      }
    } else {
      assert OfTenant(rs[0 := r], tenant)[0] == r && OfTenant(rs, tenant)[0] == rs[0];
    }
  }

  /**
   With any ids, an update leaves a tenant's keys alone exactly when the first record with the id is
   not that tenant's or stays as it is.
   */
  lemma UpdateIsolated(kind: Kind, rs: seq<Record>, id: string, status: string, at: Option<int>, tenant: string)
    ensures var i := FindId(rs, id);
            OfTenant(WithStatus(kind, rs, id, status, at), tenant) == OfTenant(rs, tenant) <==>
            i == |rs| || rs[i].tenant != tenant || Stamped(kind, rs[i], status, at) == rs[i]
  {
    var i := FindId(rs, id);
    if i < |rs| {
      var r := Stamped(kind, rs[i], status, at);
      if rs[i].tenant != tenant {
        UpdateAt(rs, i, r, tenant);
      } else if r != rs[i] {
        UpdateOwn(rs, i, r, tenant);
      } else {
        assert rs[i := r] == rs;
      }
    }
  }

  // ---------------------------------------------------------------- the largest active epoch

  predicate IsActive(r: Record, tenant: string) {
    r.tenant == tenant && r.status == "active"
  }

  lemma {:induction false} ActiveMembers(rs: seq<Record>, tenant: string, r: Record)
    ensures r in Active(rs, tenant) <==> r in rs && IsActive(r, tenant)
  {
    if rs != [] {
      ActiveMembers(rs[1..], tenant, r);
      assert r in rs <==> r == rs[0] || r in rs[1..];
    }
  }

  /** The epoch is absent exactly when the tenant has no active key; otherwise it is the largest of an active key. */
  lemma MaxEpochExactly(phase: Phase, rs: seq<Record>, tenant: string)
    ensures MaxEpoch(phase, rs, tenant).None? <==> forall r | r in rs :: !IsActive(r, tenant)
    ensures var m := MaxEpoch(phase, rs, tenant);
            m.Some? ==> (exists r | r in rs :: IsActive(r, tenant) && r.epoch == m.value)
                        && forall r | r in rs && IsActive(r, tenant) :: r.epoch <= m.value
  {
    var active := Active(rs, tenant);
    var epochs := Epochs(active);
    forall r ensures r in active <==> r in rs && IsActive(r, tenant) { ActiveMembers(rs, tenant, r); }
    forall r | r in active ensures r.epoch in epochs {
      var i :| 0 <= i < |active| && active[i] == r;
      assert epochs[i] == r.epoch;
    }
    if active != [] {
      assert active[0] in rs && IsActive(active[0], tenant);
      var i :| 0 <= i < |epochs| && epochs[i] == MaxOf(epochs);
      assert active[i] in rs;
    }
  }

  /** Asked for the largest active epoch, either store answers with just that. */
  lemma EpochAnswer(phase: Phase, s: Store, tenant: string)
    ensures var a := Step(phase, s, GetMaxDekEpoch(tenant)).1;
            && a.Epoch?
            && (a.epoch.None? <==> forall r | r in s.deks :: !IsActive(r, tenant))
            && (a.epoch.Some? ==> (exists r | r in s.deks :: IsActive(r, tenant) && r.epoch == a.epoch.value)
                                  && forall r | r in s.deks && IsActive(r, tenant) :: r.epoch <= a.epoch.value)
  {
    MaxEpochExactly(phase, s.deks, tenant);
  }

  /** Deletion leaves the others' records in order, and reports how many records of each kind it removed. */
  lemma DeletionAnswer(phase: Phase, s: Store, tenant: string)
    ensures Step(phase, s, DeleteAllWrappedMaterial(tenant)) == (
              s.(keks := OfOthers(s.keks, tenant), deks := OfOthers(s.deks, tenant), biks := OfOthers(s.biks, tenant)),
              Removed(Counts(|OfTenant(s.keks, tenant)|, |OfTenant(s.deks, tenant)|, |OfTenant(s.biks, tenant)|)))
  {
    DeletionExactly(phase, s, tenant);
  }

  /** Questions change nothing. */
  lemma QuestionsKeep(phase: Phase, s: Store, op: Op)
    requires op.GetPolicy? || op.List? || op.GetKekById? || op.GetDekById? || op.GetMaxDekEpoch?
    ensures Step(phase, s, op).0 == s
  {
  }

  /** A record is listed for its tenant and for no other, and records keep their order. */
  lemma {:induction false} ListedExactly(rs: seq<Record>, tenant: string)
    ensures forall r :: r in OfTenant(rs, tenant) <==> r in rs && r.tenant == tenant
    ensures forall r :: r in OfOthers(rs, tenant) <==> r in rs && r.tenant != tenant
    ensures |OfTenant(rs, tenant)| + |OfOthers(rs, tenant)| == |rs|
  {
    if rs != [] {
      ListedExactly(rs[1..], tenant);
      assert forall r :: r in rs <==> r == rs[0] || r in rs[1..];
    }
  }
}
