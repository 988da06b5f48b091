/** Plan ceilings under the per-tenant lock (backend-rs/src/limits.rs). */
module Limits {
  import opened Json

  // Any number of requests, as interleaved steps of `take_tenant_lock`, `decide` and
  // `enforce_limit`. A request counts, decides and writes under the lock; some writers insert
  // inside their transaction, others on another connection
  // (backend-rs/src/routes/sessions.rs:417-446).

  // ----- one ceiling

  datatype Verdict = Allowed | Refused(max: Json) | Uncomparable

  function Decide(maxAllowed: Json, current: int, adding: int): Verdict {
    match maxAllowed
    case Null => Allowed
    case Bool(b) => if current + adding > (if b then 1 else 0) then Refused(maxAllowed) else Allowed
    case Num(n) => if (current + adding) as real > AsReal(n) then Refused(maxAllowed) else Allowed
    case _ => Uncomparable
  }

  /** What a ceiling lets through stays at or below `bound`. */
  ghost predicate CeilingWithin(maxAllowed: Json, bound: int) {
    match maxAllowed
    case Null => false
    case Bool(b) => (if b then 1 else 0) <= bound
    case Num(n) => AsReal(n) < bound as real + 1.0
    case _ => true
  }

  lemma {:induction false} AllowedWithin(maxAllowed: Json, bound: int, current: int, adding: int)
    requires CeilingWithin(maxAllowed, bound) && Decide(maxAllowed, current, adding) == Allowed
    ensures current + adding <= bound
  {
    hide AsReal;
  }

  /** The most that a ceiling lets through; a truth value counts as 0 or 1. */
  function Highest(maxAllowed: Json): real
    requires maxAllowed.Bool? || maxAllowed.Num?
  {
    match maxAllowed
    case Bool(b) => if b then 1.0 else 0.0
    case Num(n) => AsReal(n)
  }

  /** No ceiling allows anything, a ceiling up to its own value, and what is no number decides nothing. */
  lemma {:induction false} DecideExactly(maxAllowed: Json, current: int, adding: int)
    ensures Decide(maxAllowed, current, adding) == Uncomparable
       <==> maxAllowed.Str? || maxAllowed.Arr? || maxAllowed.Obj?
    ensures Decide(maxAllowed, current, adding) == Allowed
       <==> maxAllowed.Null?
            || ((maxAllowed.Bool? || maxAllowed.Num?) && (current + adding) as real <= Highest(maxAllowed))
    ensures Decide(maxAllowed, current, adding).Refused? ==> Decide(maxAllowed, current, adding).max == maxAllowed
  {
    hide AsReal;
  }

  // ----- the shared state

  type Tenant = string
  type Resource = (Tenant, string)
  type Id = nat

  datatype Phase =
    | Begun
    | Locked
    | Counted(key: string, current: int, adding: nat)
    | Refusing(key: string, current: int, max: Json)
    | Over
    | Committed
    | RolledBack
    | Cancelled

  /**
  `pending` rows are written and not yet committed; `cleared` rows have been allowed and not
  yet written. A request may clear several ceilings before its first write, or one twice.
  */
  datatype Request = Request(tenant: Tenant, phase: Phase, pending: map<string, nat>, cleared: map<string, nat>) {
    /** Between taking the lock and the end of the transaction. */
    predicate Holding() {
      phase.Locked? || phase.Counted? || phase.Refusing? || phase.Over?
    }

    predicate Idle() {
      pending == map[] && cleared == map[]
    }

    function Pending(key: string): nat {
      if key in pending then pending[key] else 0
    }

    function Cleared(key: string): nat {
      if key in cleared then cleared[key] else 0
    }
  }

  /** A `limit.reached` row of the activity log. */
  datatype Record = Record(tenant: Tenant, key: string, current: int, max: Json)

  /**
  What happened to the refusals, read by no step: the record each refused request owes, the
  place of its record in the log, the requests whose log write failed, and those cut off
  between the refusal and that write.
  */
  datatype History = History(refused: map<Id, Record>, logged: map<Id, nat>, failed: set<Id>, cut: set<Id>)

  datatype State = State(
    rows: map<Resource, int>,
    ceilings: map<Resource, Json>,
    holder: map<int, Id>,
    requests: map<Id, Request>,
    log: seq<Record>,
    history: History)
  {
    function Rows(r: Resource): int {
      if r in rows then rows[r] else 0
    }

    /** A tenant without the key has no ceiling. */
    function Ceiling(r: Resource): Json {
      if r in ceilings then ceilings[r] else Null
    }
  }

  datatype Step =
    | Begin(id: Id, tenant: Tenant)
    | TakeLock(id: Id)
    | SkipLock(id: Id)
    | Count(id: Id, key: string, adding: nat)
    | Enforce(id: Id)
    | Insert(id: Id, key: string, n: nat, direct: bool)
    | LogRefusal(id: Id, ok: bool)
    | Commit(id: Id)
    | Rollback(id: Id)
    | Cancel(id: Id)
    | Delete(resource: Resource, n: nat)
    | ChangePlan(resource: Resource, ceiling: Json)

  function SetPhase(s: State, id: Id, p: Phase): State
    requires id in s.requests
  {
    s.(requests := s.requests[id := s.requests[id].(phase := p)])
  }

  function AddRows(rows: map<Resource, int>, r: Resource, n: int): map<Resource, int> {
    rows[r := (if r in rows then rows[r] else 0) + n]
  }

  /** Rows of the transaction become visible at commit. */
  function Publish(rows: map<Resource, int>, tenant: Tenant, pending: map<string, nat>): map<Resource, int> {
    map r | r in rows.Keys + (set k | k in pending :: (tenant, k)) ::
      (if r in rows then rows[r] else 0) + (if r.0 == tenant && r.1 in pending then pending[r.1] else 0)
  }

  function Release(s: State, hash: Tenant -> int, id: Id, p: Phase): State
    requires id in s.requests
  {
    s.(holder := s.holder - {hash(s.requests[id].tenant)},
       requests := s.requests[id := s.requests[id].(phase := p, pending := map[], cleared := map[])])
  }

  /** The row that a refusal owes the log. */
  function Owed(q: Request): Record
    requires q.phase.Refusing?
  {
    Record(q.tenant, q.phase.key, q.phase.current, q.phase.max)
  }

  /**
  A refused request writes its record before it returns, so it cannot roll back earlier. A
  request whose connection is dropped is cancelled wherever it stands.
  */
  predicate Enabled(s: State, hash: Tenant -> int, step: Step) {
    match step
    case Begin(id, _) => id !in s.requests
    case TakeLock(id) => id in s.requests && s.requests[id].phase.Begun? && hash(s.requests[id].tenant) !in s.holder
    case SkipLock(id) => id in s.requests && s.requests[id].phase.Begun?
    case Count(id, _, _) => id in s.requests && s.requests[id].phase.Locked?
    case Enforce(id) => id in s.requests && s.requests[id].phase.Counted?
    case Insert(id, key, n, _) => id in s.requests && s.requests[id].phase.Locked? && n <= s.requests[id].Cleared(key)
    case LogRefusal(id, _) => id in s.requests && s.requests[id].phase.Refusing?
    case Commit(id) => id in s.requests && s.requests[id].phase.Locked?
    case Rollback(id) => id in s.requests && s.requests[id].Holding() && !s.requests[id].phase.Refusing?
    case Cancel(id) => id in s.requests && s.requests[id].Holding()
    case Delete(r, n) => n <= s.Rows(r)
    case ChangePlan(_, _) => true
  }

  /** One step; a step that is not enabled does nothing. */
  function Apply(s: State, hash: Tenant -> int, step: Step): State {
    if !Enabled(s, hash, step) then s
    else match step
      case Begin(id, tenant) => s.(requests := s.requests[id := Request(tenant, Begun, map[], map[])])
      case TakeLock(id) => SetPhase(s, id, Locked).(holder := s.holder[hash(s.requests[id].tenant) := id])
      case SkipLock(id) => SetPhase(s, id, Locked)
      case Count(id, key, adding) =>
        var q := s.requests[id];
        SetPhase(s, id, Counted(key, s.Rows((q.tenant, key)) + q.Pending(key), adding))
      case Enforce(id) =>
        var q := s.requests[id];
        (match Decide(s.Ceiling((q.tenant, q.phase.key)), q.phase.current, q.phase.adding)
         case Allowed =>
           var cleared := q.(phase := Locked, cleared := q.cleared[q.phase.key := q.phase.adding]);
           s.(requests := s.requests[id := cleared])
         case Refused(max) =>
           var record := Record(q.tenant, q.phase.key, q.phase.current, max);
           SetPhase(s.(history := s.history.(refused := s.history.refused[id := record])), id,
                    Refusing(q.phase.key, q.phase.current, max))
         case Uncomparable => SetPhase(s, id, Over))
      case Insert(id, key, n, direct) =>
        var q := s.requests[id];
        var left := q.(cleared := q.cleared[key := q.Cleared(key) - n]);
        if direct then s.(rows := AddRows(s.rows, (q.tenant, key), n), requests := s.requests[id := left])
        else s.(requests := s.requests[id := left.(pending := q.pending[key := q.Pending(key) + n])])
      case LogRefusal(id, ok) =>
        var h := s.history;
        var written :=
          if ok then s.(log := s.log + [Owed(s.requests[id])], history := h.(logged := h.logged[id := |s.log|]))
          else s.(history := h.(failed := h.failed + {id}));
        SetPhase(written, id, Over)
      case Commit(id) =>
        var q := s.requests[id];
        Release(s.(rows := Publish(s.rows, q.tenant, q.pending)), hash, id, Committed)
      case Rollback(id) => Release(s, hash, id, RolledBack)
      case Cancel(id) =>
        var h := s.history;
        var cut := if s.requests[id].phase.Refusing? then s.(history := h.(cut := h.cut + {id})) else s;
        Release(cut, hash, id, Cancelled)
      case Delete(r, n) => s.(rows := AddRows(s.rows, r, 0 - n))
      case ChangePlan(r, ceiling) => s.(ceilings := s.ceilings[r := ceiling])
  }

  function Run(s: State, hash: Tenant -> int, steps: seq<Step>): State
  {
    if |steps| == 0 then s else Apply(Run(s, hash, steps[..|steps| - 1]), hash, steps[|steps| - 1])
  }

  /** What a decision changes, and what it leaves alone. */
  lemma {:induction false} EnforceMeans(s: State, hash: Tenant -> int, id: Id)
    requires Enabled(s, hash, Enforce(id))
    ensures var q := s.requests[id];
            var after := Apply(s, hash, Enforce(id));
            var allowed := Decide(s.Ceiling((q.tenant, q.phase.key)), q.phase.current, q.phase.adding) == Allowed;
            after.rows == s.rows && after.ceilings == s.ceilings && after.holder == s.holder && id in after.requests
            && after.requests == s.requests[id := after.requests[id]]
            && after.requests[id].tenant == q.tenant && after.requests[id].pending == q.pending
            && after.requests[id].Holding() && !after.requests[id].phase.Counted? && after.log == s.log
            && after.history == (if after.requests[id].phase.Refusing?
                                 then s.history.(refused := s.history.refused[id := Owed(after.requests[id])])
                                 else s.history)
            && after.requests[id].cleared == (if allowed then q.cleared[q.phase.key := q.phase.adding] else q.cleared)
  {
    hide Decide;
  }

  // ----- mutual exclusion

  /** The holder table names exactly the requests between lock and end of transaction. */
  ghost predicate Exclusive(s: State, hash: Tenant -> int) {
    (forall id :: id in s.requests && s.requests[id].Holding() ==>
       hash(s.requests[id].tenant) in s.holder && s.holder[hash(s.requests[id].tenant)] == id)
    && (forall id :: id in s.requests && !s.requests[id].Holding() ==> s.requests[id].Idle())
  }

  /** Two requests of one tenant are never both past the lock. */
  lemma {:induction false} OneHolder(s: State, hash: Tenant -> int, a: Id, b: Id)
    requires Exclusive(s, hash) && a in s.requests && b in s.requests
    requires s.requests[a].Holding() && s.requests[b].Holding()
      && hash(s.requests[a].tenant) == hash(s.requests[b].tenant)
    ensures a == b
  {
  }

  ghost predicate OnlyChanges(s: State, after: State, id: Id, q: Request) {
    id in s.requests && after.requests == s.requests[id := q] && q.tenant == s.requests[id].tenant
  }

  /** A request that stays on its side of the lock. */
  lemma {:induction false} StaysExclusive(s: State, after: State, hash: Tenant -> int, id: Id, q: Request)
    requires Exclusive(s, hash) && OnlyChanges(s, after, id, q) && after.holder == s.holder
    requires q.Holding() == s.requests[id].Holding() && (!q.Holding() ==> q.Idle())
    ensures Exclusive(after, hash)
  {
    hide Request.Holding;
  }

  lemma {:induction false} AcquireExclusive(s: State, after: State, hash: Tenant -> int, id: Id, q: Request)
    requires Exclusive(s, hash) && OnlyChanges(s, after, id, q) && q.Holding()
    requires hash(q.tenant) !in s.holder && after.holder == s.holder[hash(q.tenant) := id]
    ensures Exclusive(after, hash)
  {
    hide Request.Holding;
  }

  lemma {:induction false} ReleaseExclusive(s: State, after: State, hash: Tenant -> int, id: Id, q: Request)
    requires Exclusive(s, hash) && OnlyChanges(s, after, id, q) && s.requests[id].Holding()
    requires !q.Holding() && q.Idle() && after.holder == s.holder - {hash(q.tenant)}
    ensures Exclusive(after, hash)
  {
    hide Request.Holding;
  }

  lemma {:induction false} ExclusiveStep(s: State, hash: Tenant -> int, step: Step)
    requires Exclusive(s, hash) && !step.SkipLock?
    ensures Exclusive(Apply(s, hash, step), hash)
  {
    if Enabled(s, hash, step) {
      hide Apply, Exclusive, Enabled;
      match step {
        case Begin(_, _) => OtherExclusive(s, hash, step);
        case Delete(_, _) => OtherExclusive(s, hash, step);
        case ChangePlan(_, _) => OtherExclusive(s, hash, step);
        case TakeLock(_) => BoundaryExclusive(s, hash, step);
        case Commit(_) => BoundaryExclusive(s, hash, step);
        case Rollback(_) => BoundaryExclusive(s, hash, step);
        case Cancel(_) => BoundaryExclusive(s, hash, step);
        case Enforce(id) => EnforceExclusive(s, hash, id);
        case _ => InnerExclusive(s, hash, step);
      }
    }
  }

  /** Taking the lock, and the three ends of a transaction. */
  lemma {:induction false} BoundaryExclusive(s: State, hash: Tenant -> int, step: Step)
    requires Exclusive(s, hash) && Enabled(s, hash, step)
    requires step.TakeLock? || step.Commit? || step.Rollback? || step.Cancel?
    ensures Exclusive(Apply(s, hash, step), hash)
  {
    hide Publish, Exclusive;
    var after := Apply(s, hash, step);
    if step.TakeLock? {
      AcquireExclusive(s, after, hash, step.id, after.requests[step.id]);
    } else {
      ReleaseExclusive(s, after, hash, step.id, after.requests[step.id]);
    }
  }

  lemma {:induction false} EnforceExclusive(s: State, hash: Tenant -> int, id: Id)
    requires Exclusive(s, hash) && Enabled(s, hash, Enforce(id))
    ensures Exclusive(Apply(s, hash, Enforce(id)), hash)
  {
    var after := Apply(s, hash, Enforce(id));
    hide Apply, Exclusive;
    EnforceMeans(s, hash, id);
    StaysExclusive(s, after, hash, id, after.requests[id]);
  }

  /** The other steps between the lock and the end of the transaction. */
  lemma {:induction false} InnerExclusive(s: State, hash: Tenant -> int, step: Step)
    requires Exclusive(s, hash) && Enabled(s, hash, step)
    requires step.Count? || step.Insert? || step.LogRefusal?
    ensures Exclusive(Apply(s, hash, step), hash)
  {
    hide AddRows, Exclusive;
    var after := Apply(s, hash, step);
    StaysExclusive(s, after, hash, step.id, after.requests[step.id]);
  }

  lemma {:induction false} OtherExclusive(s: State, hash: Tenant -> int, step: Step)
    requires Exclusive(s, hash) && (step.Begin? || step.Delete? || step.ChangePlan?)
    ensures Exclusive(Apply(s, hash, step), hash)
  {
    hide AddRows;
  }

  // ----- the bound

  type Bounds = map<Resource, int>

  /** Stored rows, with those a request has written or may still write, stay at or below the bound. */
  ghost predicate Bounded(s: State, bounds: Bounds) {
    (forall r :: r in bounds ==> s.Rows(r) <= bounds[r])
    && (forall r :: r in bounds ==> CeilingWithin(s.Ceiling(r), bounds[r]))
    && forall id :: id in s.requests && s.requests[id].Holding() ==> RequestBounded(s, s.requests[id], bounds)
  }

  ghost predicate RequestBounded(s: State, q: Request, bounds: Bounds) {
    (forall k :: (q.tenant, k) in bounds ==>
       s.Rows((q.tenant, k)) + q.Pending(k) + q.Cleared(k) <= bounds[(q.tenant, k)])
    && (q.phase.Counted? ==> s.Rows((q.tenant, q.phase.key)) + q.Pending(q.phase.key) <= q.phase.current)
  }

  /** Plans stay within the bounds for the whole run. */
  ghost predicate PlanWithin(step: Step, bounds: Bounds) {
    step.ChangePlan? && step.resource in bounds ==> CeilingWithin(step.ceiling, bounds[step.resource])
  }

  /** A request of another tenant, or one with no more rows to see, is not disturbed. */
  lemma {:induction false} FewerRows(s: State, s': State, q: Request, bounds: Bounds)
    requires RequestBounded(s, q, bounds)
    requires forall k :: s'.Rows((q.tenant, k)) <= s.Rows((q.tenant, k))
    ensures RequestBounded(s', q, bounds)
  {
  }

  lemma {:induction false} PublishedRows(rows: map<Resource, int>, tenant: Tenant, pending: map<string, nat>,
                                         r: Resource)
    ensures var after := Publish(rows, tenant, pending);
            (if r in after then after[r] else 0)
            == (if r in rows then rows[r] else 0) + (if r.0 == tenant && r.1 in pending then pending[r.1] else 0)
  {
    if r.0 == tenant && r.1 in pending {
      assert r == (tenant, r.1);
    }
  }

  lemma {:induction false} CommitBounded(s: State, hash: Tenant -> int, id: Id, bounds: Bounds)
    requires Exclusive(s, hash) && Bounded(s, bounds) && Enabled(s, hash, Commit(id))
    ensures Bounded(Apply(s, hash, Commit(id)), bounds)
  {
    hide CeilingWithin, Publish;
    var q := s.requests[id];
    var after := Apply(s, hash, Commit(id));
    assert RequestBounded(s, q, bounds);
    forall r ensures after.Rows(r) == s.Rows(r) + (if r.0 == q.tenant then q.Pending(r.1) else 0) {
      PublishedRows(s.rows, q.tenant, q.pending, r);
    }
    forall r | r in bounds ensures after.Rows(r) <= bounds[r] {
      if r.0 == q.tenant {
        assert (q.tenant, r.1) == r;
      }
    }
    forall other | other in after.requests && after.requests[other].Holding()
      ensures RequestBounded(after, after.requests[other], bounds)
    {
      OneHolderElsewhere(s, hash, id, other);
      FewerRows(s, after, s.requests[other], bounds);
    }
  }

  lemma {:induction false} OneHolderElsewhere(s: State, hash: Tenant -> int, id: Id, other: Id)
    requires Exclusive(s, hash) && id in s.requests && other in s.requests && other != id
    requires s.requests[id].Holding() && s.requests[other].Holding()
    ensures s.requests[other].tenant != s.requests[id].tenant
  {
    if s.requests[other].tenant == s.requests[id].tenant {
      OneHolder(s, hash, id, other);
    }
  }

  lemma {:induction false} InsertOwnBounded(s: State, hash: Tenant -> int, id: Id, key: string, n: nat, direct: bool,
                                            bounds: Bounds)
    requires Bounded(s, bounds) && Enabled(s, hash, Insert(id, key, n, direct))
    ensures var after := Apply(s, hash, Insert(id, key, n, direct));
            RequestBounded(after, after.requests[id], bounds)
  {
    hide CeilingWithin;
    assert RequestBounded(s, s.requests[id], bounds);
  }

  lemma {:induction false} InsertRowsBounded(s: State, hash: Tenant -> int, id: Id, key: string, n: nat, direct: bool,
                                            bounds: Bounds)
    requires Bounded(s, bounds) && Enabled(s, hash, Insert(id, key, n, direct))
    ensures var after := Apply(s, hash, Insert(id, key, n, direct));
            forall r :: r in bounds ==> after.Rows(r) <= bounds[r]
  {
    hide CeilingWithin;
    var q := s.requests[id];
    assert RequestBounded(s, q, bounds);
    forall r | r in bounds ensures Apply(s, hash, Insert(id, key, n, direct)).Rows(r) <= bounds[r] {
      assert r == (r.0, r.1);
    }
  }

  lemma {:induction false} InsertBounded(s: State, hash: Tenant -> int, id: Id, key: string, n: nat, direct: bool,
                                            bounds: Bounds)
    requires Exclusive(s, hash) && Bounded(s, bounds) && Enabled(s, hash, Insert(id, key, n, direct))
    ensures Bounded(Apply(s, hash, Insert(id, key, n, direct)), bounds)
  {
    hide CeilingWithin, RequestBounded;
    var after := Apply(s, hash, Insert(id, key, n, direct));
    InsertOwnBounded(s, hash, id, key, n, direct, bounds);
    InsertRowsBounded(s, hash, id, key, n, direct, bounds);
    forall other | other in after.requests && after.requests[other].Holding() && other != id
      ensures RequestBounded(after, after.requests[other], bounds)
    {
      OneHolderElsewhere(s, hash, id, other);
      FewerRows(s, after, s.requests[other], bounds);
    }
  }

  lemma {:induction false} EnforceBounded(s: State, hash: Tenant -> int, id: Id, bounds: Bounds)
    requires Exclusive(s, hash) && Bounded(s, bounds) && Enabled(s, hash, Enforce(id))
    ensures Bounded(Apply(s, hash, Enforce(id)), bounds)
  {
    var q := s.requests[id];
    var r := (q.tenant, q.phase.key);
    var after := Apply(s, hash, Enforce(id));
    hide CeilingWithin, Decide, Apply;
    EnforceMeans(s, hash, id);
    assert RequestBounded(s, q, bounds);
    if r in bounds && Decide(s.Ceiling(r), q.phase.current, q.phase.adding) == Allowed {
      AllowedWithin(s.Ceiling(r), bounds[r], q.phase.current, q.phase.adding);
    }
    SameRowsBounded(s, after, id, after.requests[id], bounds);
  }

  lemma {:induction false} DeleteBounded(s: State, hash: Tenant -> int, r: Resource, n: nat, bounds: Bounds)
    requires Bounded(s, bounds) && Enabled(s, hash, Delete(r, n))
    ensures Bounded(Apply(s, hash, Delete(r, n)), bounds)
  {
    hide CeilingWithin;
    var after := Apply(s, hash, Delete(r, n));
    forall id | id in after.requests && after.requests[id].Holding()
      ensures RequestBounded(after, after.requests[id], bounds)
    {
      FewerRows(s, after, s.requests[id], bounds);
    }
  }

  /** Only one request changes, and no row. */
  lemma {:induction false} SameRowsBounded(s: State, after: State, id: Id, q: Request, bounds: Bounds)
    requires Bounded(s, bounds) && after.rows == s.rows && after.ceilings == s.ceilings
    requires after.requests == s.requests[id := q] && (q.Holding() ==> RequestBounded(after, q, bounds))
    ensures Bounded(after, bounds)
  {
    hide CeilingWithin, Request.Holding;
    forall other | other in after.requests && after.requests[other].Holding()
      ensures RequestBounded(after, after.requests[other], bounds)
    {
      if other != id {
        FewerRows(s, after, s.requests[other], bounds);
      }
    }
  }

  lemma {:induction false} TakeLockBounded(s: State, hash: Tenant -> int, id: Id, bounds: Bounds)
    requires Exclusive(s, hash) && Bounded(s, bounds) && Enabled(s, hash, TakeLock(id))
    ensures Bounded(Apply(s, hash, TakeLock(id)), bounds)
  {
    hide CeilingWithin;
    var after := Apply(s, hash, TakeLock(id));
    SameRowsBounded(s, after, id, after.requests[id], bounds);
  }

  lemma {:induction false} CountBounded(s: State, hash: Tenant -> int, id: Id, key: string, adding: nat, bounds: Bounds)
    requires Bounded(s, bounds) && Enabled(s, hash, Count(id, key, adding))
    ensures Bounded(Apply(s, hash, Count(id, key, adding)), bounds)
  {
    hide CeilingWithin;
    var after := Apply(s, hash, Count(id, key, adding));
    assert RequestBounded(s, s.requests[id], bounds);
    SameRowsBounded(s, after, id, after.requests[id], bounds);
  }

  lemma {:induction false} LogBounded(s: State, hash: Tenant -> int, id: Id, ok: bool, bounds: Bounds)
    requires Bounded(s, bounds) && Enabled(s, hash, LogRefusal(id, ok))
    ensures Bounded(Apply(s, hash, LogRefusal(id, ok)), bounds)
  {
    hide CeilingWithin;
    var after := Apply(s, hash, LogRefusal(id, ok));
    assert RequestBounded(s, s.requests[id], bounds);
    SameRowsBounded(s, after, id, after.requests[id], bounds);
  }

  lemma {:induction false} EndBounded(s: State, hash: Tenant -> int, step: Step, bounds: Bounds)
    requires step.Begin? || step.Rollback? || step.Cancel?
    requires Bounded(s, bounds) && Enabled(s, hash, step)
    ensures Bounded(Apply(s, hash, step), bounds)
  {
    hide CeilingWithin;
    var after := Apply(s, hash, step);
    SameRowsBounded(s, after, step.id, after.requests[step.id], bounds);
  }

  lemma {:induction false} PlanBounded(s: State, hash: Tenant -> int, step: Step, bounds: Bounds)
    requires step.ChangePlan? && Bounded(s, bounds) && PlanWithin(step, bounds)
    ensures Bounded(Apply(s, hash, step), bounds)
  {
    hide CeilingWithin;
    var after := Apply(s, hash, step);
    forall id | id in after.requests && after.requests[id].Holding()
      ensures RequestBounded(after, after.requests[id], bounds)
    {
      FewerRows(s, after, s.requests[id], bounds);
    }
  }

  lemma {:induction false} StepBounded(s: State, hash: Tenant -> int, step: Step, bounds: Bounds)
    requires Exclusive(s, hash) && Bounded(s, bounds) && PlanWithin(step, bounds) && !step.SkipLock?
    ensures Bounded(Apply(s, hash, step), bounds)
  {
    if Enabled(s, hash, step) {
      hide Bounded, Exclusive, Apply;
      match step {
        case Commit(id) => CommitBounded(s, hash, id, bounds);
        case Insert(id, key, n, direct) => InsertBounded(s, hash, id, key, n, direct, bounds);
        case Enforce(id) => EnforceBounded(s, hash, id, bounds);
        case Delete(r, n) => DeleteBounded(s, hash, r, n, bounds);
        case TakeLock(id) => TakeLockBounded(s, hash, id, bounds);
        case Count(id, key, adding) => CountBounded(s, hash, id, key, adding, bounds);
        case LogRefusal(id, ok) => LogBounded(s, hash, id, ok, bounds);
        case Begin(_, _) => EndBounded(s, hash, step, bounds);
        case Rollback(_) => EndBounded(s, hash, step, bounds);
        case Cancel(_) => EndBounded(s, hash, step, bounds);
        case ChangePlan(_, _) => PlanBounded(s, hash, step, bounds);
      }
    }
  }

  /**
  For every interleaving of requests that take the lock first, the stored rows never pass
  the bound: the rows there were at the start or the highest ceiling in force.
  */
  lemma {:induction false} RowsNeverPassCeiling(s: State, hash: Tenant -> int, steps: seq<Step>, bounds: Bounds)
    requires Exclusive(s, hash) && Bounded(s, bounds)
    requires forall i :: 0 <= i < |steps| ==> PlanWithin(steps[i], bounds) && !steps[i].SkipLock?
    ensures Exclusive(Run(s, hash, steps), hash) && Bounded(Run(s, hash, steps), bounds)
    ensures forall r :: r in bounds ==> Run(s, hash, steps).Rows(r) <= bounds[r]
  {
    if |steps| > 0 {
      hide Apply, PlanWithin, Exclusive;
      var init := steps[..|steps| - 1];
      RowsNeverPassCeiling(s, hash, init, bounds);
      ExclusiveStep(Run(s, hash, init), hash, steps[|steps| - 1]);
      StepBounded(Run(s, hash, init), hash, steps[|steps| - 1], bounds);
    }
  }

  // ----- refusals

  /** Every step only appends to the log. */
  lemma {:induction false} LogOnlyGrows(s: State, hash: Tenant -> int, step: Step)
    ensures s.log <= Apply(s, hash, step).log
  {
    hide Decide, Publish;
  }

  lemma {:induction false} LogOnlyGrowsRun(s: State, hash: Tenant -> int, steps: seq<Step>)
    ensures s.log <= Run(s, hash, steps).log
  {
    if |steps| > 0 {
      hide Apply;
      LogOnlyGrowsRun(s, hash, steps[..|steps| - 1]);
      LogOnlyGrows(Run(s, hash, steps[..|steps| - 1]), hash, steps[|steps| - 1]);
    }
  }

  /** The request's own row is in the log. */
  ghost predicate OwnRecord(s: State, id: Id) {
    var h := s.history;
    id in h.refused && id in h.logged && h.logged[id] < |s.log| && s.log[h.logged[id]] == h.refused[id]
  }

  /** A refused request is about to write its record, or it is past that and will not commit. */
  ghost predicate RefusalAccounted(s: State, id: Id) {
    id in s.history.refused && id in s.requests
    && var q := s.requests[id];
       if q.phase.Refusing? then s.history.refused[id] == Owed(q) && id !in s.history.logged
       else
         (q.phase.Over? || q.phase.RolledBack? || q.phase.Cancelled?)
         && (OwnRecord(s, id) || id in s.history.failed || (id in s.history.cut && q.phase.Cancelled?))
  }

  ghost predicate Refusals(s: State) {
    (forall id :: id in s.history.refused ==> RefusalAccounted(s, id))
    && (forall id :: id in s.requests && s.requests[id].phase.Refusing? ==> id in s.history.refused)
    && (forall id :: id in s.history.logged ==> OwnRecord(s, id))
  }

  ghost predicate LoggedAt(logged: map<Id, nat>, i: nat) {
    exists id :: id in logged && logged[id] == i
  }

  /** The places from `start` to `end` belong to one request each. */
  ghost predicate Places(logged: map<Id, nat>, start: nat, end: nat) {
    (forall id :: id in logged ==> start <= logged[id] < end)
    && (forall a, b :: a in logged && b in logged && a != b ==> logged[a] != logged[b])
    && forall i :: start <= i < end ==> LoggedAt(logged, i)
  }

  /** The rows logged since the log held `start` rows are those of refused requests, one each. */
  ghost predicate Accounted(s: State, start: nat) {
    Refusals(s) && Places(s.history.logged, start, |s.log|)
  }

  /** No refusal yet: nothing in the history, and no request between its refusal and its record. */
  ghost predicate NoRefusals(s: State) {
    s.history == History(map[], map[], {}, {}) && forall id :: id in s.requests ==> !s.requests[id].phase.Refusing?
  }

  lemma {:induction false} PlacesGrow(logged: map<Id, nat>, start: nat, end: nat, id: Id)
    requires Places(logged, start, end) && start <= end && id !in logged
    ensures Places(logged[id := end], start, end + 1)
  {
    var after := logged[id := end];
    forall i | start <= i < end + 1 ensures LoggedAt(after, i) {
      if i < end {
        assert LoggedAt(logged, i);
        var x :| x in logged && logged[x] == i;
        assert x in after && after[x] == i;
      } else {
        assert id in after && after[id] == i;
      }
    }
  }

  ghost predicate SameExcept(h: History, h': History, id: Id) {
    forall x :: x != id ==>
      (x in h.refused <==> x in h'.refused) && (x in h.refused ==> h.refused[x] == h'.refused[x])
      && (x in h.logged <==> x in h'.logged) && (x in h.logged ==> h.logged[x] == h'.logged[x])
      && (x in h.failed <==> x in h'.failed) && (x in h.cut <==> x in h'.cut)
  }

  /** One request moves on; the others keep their accounts. */
  lemma {:induction false} OneMoves(s: State, after: State, id: Id, q: Request)
    requires Refusals(s) && s.log <= after.log && SameExcept(s.history, after.history, id)
    requires after.requests == s.requests[id := q]
    requires id in after.history.refused ==> RefusalAccounted(after, id)
    requires q.phase.Refusing? ==> id in after.history.refused
    requires id in after.history.logged ==> OwnRecord(after, id)
    ensures Refusals(after)
  {
    forall x | x in after.history.logged ensures OwnRecord(after, x) {
      if x != id {
        assert OwnRecord(s, x);
      }
    }
    forall x | x in after.history.refused ensures RefusalAccounted(after, x) {
      if x != id {
        assert RefusalAccounted(s, x);
      }
    }
  }

  lemma {:induction false} QuietStep(s: State, after: State, id: Id, q: Request, start: nat)
    requires Accounted(s, start) && after.history == s.history && after.log == s.log
    requires after.requests == s.requests[id := q] && !q.phase.Refusing?
    requires id in s.requests ==> !s.requests[id].phase.Refusing?
    requires id in s.history.refused ==>
      id in s.requests
      && (q.phase == s.requests[id].phase
          || (s.requests[id].phase.Over? && (q.phase.RolledBack? || q.phase.Cancelled?)))
    ensures Accounted(after, start)
  {
    hide Places;
    if id in s.history.refused {
      assert RefusalAccounted(s, id);
    }
    if id in s.history.logged {
      assert OwnRecord(s, id);
    }
    OneMoves(s, after, id, q);
  }

  /** A refused request only waits for its record or for its end. */
  lemma {:induction false} RefusedPhase(s: State, id: Id)
    requires Refusals(s) && id in s.history.refused
    ensures id in s.requests
    ensures var p := s.requests[id].phase; p.Refusing? || p.Over? || p.RolledBack? || p.Cancelled?
  {
    assert RefusalAccounted(s, id);
  }

  lemma {:induction false} RefusedNow(s: State, hash: Tenant -> int, id: Id, start: nat)
    requires Accounted(s, start) && Enabled(s, hash, Enforce(id))
    ensures Accounted(Apply(s, hash, Enforce(id)), start)
  {
    var after := Apply(s, hash, Enforce(id));
    hide Apply, Places, Refusals, OwnRecord;
    EnforceMeans(s, hash, id);
    if id in s.history.refused {
      RefusedPhase(s, id);
    }
    NotLogged(s, id);
    OneMoves(s, after, id, after.requests[id]);
  }

  lemma {:induction false} NotLogged(s: State, id: Id)
    requires Refusals(s)
    requires id in s.history.refused ==> id in s.requests && s.requests[id].phase.Refusing?
    ensures id !in s.history.logged
  {
    if id in s.history.refused {
      assert RefusalAccounted(s, id);
    }
  }

  lemma {:induction false} LoggedNow(s: State, hash: Tenant -> int, id: Id, ok: bool, start: nat)
    requires Accounted(s, start) && start <= |s.log| && Enabled(s, hash, LogRefusal(id, ok))
    ensures Accounted(Apply(s, hash, LogRefusal(id, ok)), start)
  {
    hide Places, Refusals;
    var after := Apply(s, hash, LogRefusal(id, ok));
    RefusingAccounted(s, id);
    if ok {
      PlacesGrow(s.history.logged, start, |s.log|, id);
    }
    OneMoves(s, after, id, after.requests[id]);
  }

  lemma {:induction false} RefusingAccounted(s: State, id: Id)
    requires Refusals(s) && id in s.requests && s.requests[id].phase.Refusing?
    ensures RefusalAccounted(s, id)
  {
  }

  lemma {:induction false} CutNow(s: State, hash: Tenant -> int, id: Id, start: nat)
    requires Accounted(s, start) && Enabled(s, hash, Cancel(id)) && s.requests[id].phase.Refusing?
    ensures Accounted(Apply(s, hash, Cancel(id)), start)
  {
    hide Places, Refusals;
    var after := Apply(s, hash, Cancel(id));
    RefusingAccounted(s, id);
    OneMoves(s, after, id, after.requests[id]);
  }

  /** The other steps leave the history and the log alone. */
  lemma {:induction false} OtherSteps(s: State, hash: Tenant -> int, step: Step)
    requires Enabled(s, hash, step) && !step.Enforce? && !step.LogRefusal? && !step.Delete? && !step.ChangePlan?
    requires step.Cancel? ==> !s.requests[step.id].phase.Refusing?
    ensures var after := Apply(s, hash, step);
            after.history == s.history && after.log == s.log && step.id in after.requests
            && after.requests == s.requests[step.id := after.requests[step.id]]
            && !after.requests[step.id].phase.Refusing?
            && (step.id in s.requests ==> !s.requests[step.id].phase.Refusing?)
            && (step.id in s.requests && s.requests[step.id].phase.Over? ==>
                  after.requests[step.id].phase.RolledBack? || after.requests[step.id].phase.Cancelled?)
            && (step.id in s.requests ==>
                  !s.requests[step.id].phase.RolledBack? && !s.requests[step.id].phase.Cancelled?)
  {
    hide Publish, AddRows;
  }

  lemma {:induction false} AccountedStep(s: State, hash: Tenant -> int, step: Step, start: nat)
    requires Accounted(s, start) && start <= |s.log|
    ensures Accounted(Apply(s, hash, step), start)
  {
    if Enabled(s, hash, step) {
      match step {
        case Delete(_, _) => RowsOnly(s, Apply(s, hash, step), start);
        case ChangePlan(_, _) => RowsOnly(s, Apply(s, hash, step), start);
        case Enforce(id) => RefusedNow(s, hash, id, start);
        case LogRefusal(id, ok) => LoggedNow(s, hash, id, ok, start);
        case Cancel(id) =>
          if s.requests[id].phase.Refusing? {
            CutNow(s, hash, id, start);
          } else {
            OtherStep(s, hash, step, start);
          }
        case _ => OtherStep(s, hash, step, start);
      }
    }
  }

  lemma {:induction false} OtherStep(s: State, hash: Tenant -> int, step: Step, start: nat)
    requires Accounted(s, start) && Enabled(s, hash, step)
    requires !step.Enforce? && !step.LogRefusal? && !step.Delete? && !step.ChangePlan?
    requires step.Cancel? ==> !s.requests[step.id].phase.Refusing?
    ensures Accounted(Apply(s, hash, step), start)
  {
    hide Apply, Accounted, Enabled;
    OtherSteps(s, hash, step);
    OtherAccounted(s, Apply(s, hash, step), step.id, start);
  }

  lemma {:induction false} RowsOnly(s: State, after: State, start: nat)
    requires Accounted(s, start) && after.requests == s.requests && after.log == s.log && after.history == s.history
    ensures Accounted(after, start)
  {
    hide Places;
    forall id | id in after.history.refused ensures RefusalAccounted(after, id) {
      assert RefusalAccounted(s, id);
    }
  }

  lemma {:induction false} OtherAccounted(s: State, after: State, id: Id, start: nat)
    requires Accounted(s, start) && after.history == s.history && after.log == s.log && id in after.requests
    requires after.requests == s.requests[id := after.requests[id]] && !after.requests[id].phase.Refusing?
    requires id in s.requests ==> !s.requests[id].phase.Refusing?
    requires id in s.requests && s.requests[id].phase.Over? ==>
               after.requests[id].phase.RolledBack? || after.requests[id].phase.Cancelled?
    requires id in s.requests ==> !s.requests[id].phase.RolledBack? && !s.requests[id].phase.Cancelled?
    ensures Accounted(after, start)
  {
    hide Places, Refusals;
    if id in s.history.refused {
      RefusedPhase(s, id);
    }
    QuietStep(s, after, id, after.requests[id], start);
  }

  lemma {:induction false} AccountedRun(s: State, hash: Tenant -> int, steps: seq<Step>, start: nat)
    requires Accounted(s, start) && start <= |s.log|
    ensures Accounted(Run(s, hash, steps), start)
  {
    if |steps| > 0 {
      hide Apply, Accounted;
      AccountedRun(s, hash, steps[..|steps| - 1], start);
      LogOnlyGrowsRun(s, hash, steps[..|steps| - 1]);
      AccountedStep(Run(s, hash, steps[..|steps| - 1]), hash, steps[|steps| - 1], start);
    }
  }

  lemma {:induction false} NothingRefused(s: State)
    requires NoRefusals(s)
    ensures Accounted(s, |s.log|)
  {
  }

  lemma {:induction false} FailedStep(s: State, hash: Tenant -> int, step: Step, id: Id)
    requires id in Apply(s, hash, step).history.failed
    ensures id in s.history.failed || step == LogRefusal(id, false)
  {
    hide Decide, Publish, AddRows;
  }

  /** Only a failed log write enters the failed set. */
  lemma {:induction false} FailedMeans(s: State, hash: Tenant -> int, steps: seq<Step>, id: Id)
    requires s.history.failed == {} && id in Run(s, hash, steps).history.failed
    ensures LogRefusal(id, false) in steps
  {
    if |steps| > 0 {
      hide Apply;
      var init, last := steps[..|steps| - 1], steps[|steps| - 1];
      FailedStep(Run(s, hash, init), hash, last, id);
      if last != LogRefusal(id, false) {
        FailedMeans(s, hash, init, id);
      }
    }
  }

  /**
  Over every run from a state without refusals, a refused request never commits. Once it has
  rolled back its own record is in the log, and stays there whatever happens later, unless the
  write of that very record failed. One that was cancelled may in addition have been cut off
  before the write.
  */
  lemma {:induction false} RefusalSurvivesRollback(s: State, hash: Tenant -> int, steps: seq<Step>, later: seq<Step>,
                                                   id: Id)
    requires NoRefusals(s) && id in Run(s, hash, steps).history.refused
    ensures var t := Run(s, hash, steps);
            id in t.requests && !t.requests[id].phase.Committed? && t.log <= Run(t, hash, later).log
            && (t.requests[id].phase.RolledBack? ==> OwnRecord(t, id) || LogRefusal(id, false) in steps)
            && (t.requests[id].phase.Cancelled? ==>
                  OwnRecord(t, id) || LogRefusal(id, false) in steps || id in t.history.cut)
  {
    hide Apply, Places;
    var t := Run(s, hash, steps);
    NothingRefused(s);
    AccountedRun(s, hash, steps, |s.log|);
    LogOnlyGrowsRun(t, hash, later);
    assert RefusalAccounted(t, id);
    if id in t.history.failed {
      FailedMeans(s, hash, steps, id);
    }
  }

  /** Conversely, every row a run adds to the log is the record of one refused request, and of no other. */
  lemma {:induction false} EveryRecordIsARefusal(s: State, hash: Tenant -> int, steps: seq<Step>, i: nat)
    returns (id: Id)
    requires NoRefusals(s) && |s.log| <= i < |Run(s, hash, steps).log|
    ensures var t := Run(s, hash, steps);
            OwnRecord(t, id) && t.history.logged[id] == i && t.log[i] == t.history.refused[id]
            && forall other :: other in t.history.logged && other != id ==> t.history.logged[other] != i
  {
    hide Apply;
    var t := Run(s, hash, steps);
    NothingRefused(s);
    AccountedRun(s, hash, steps, |s.log|);
    assert LoggedAt(t.history.logged, i);
    id :| id in t.history.logged && t.history.logged[id] == i;
  }

  /** Some addition to `current` was over `max`. */
  ghost predicate WasOver(max: Json, current: int) {
    exists adding: nat :: Decide(max, current, adding) == Refused(max)
  }

  ghost predicate RequestJustified(q: Request) {
    q.phase.Refusing? ==> WasOver(q.phase.max, q.phase.current)
  }

  /** Every record in the log and every refusal about to be logged was over its ceiling. */
  ghost predicate Justified(s: State) {
    (forall i :: 0 <= i < |s.log| ==> WasOver(s.log[i].max, s.log[i].current))
    && forall id :: id in s.requests ==> RequestJustified(s.requests[id])
  }

  lemma {:induction false} DecideRefuses(max: Json, current: int, adding: nat)
    ensures Decide(max, current, adding).Refused? ==>
      Decide(max, current, adding) == Refused(max) && WasOver(max, current)
  {
  }

  lemma {:induction false} JustifiedMove(s: State, after: State, id: Id, q: Request)
    requires Justified(s) && after.requests == s.requests[id := q] && RequestJustified(q)
    requires after.log == s.log
             || exists r: Record :: after.log == s.log + [r] && WasOver(r.max, r.current)
    ensures Justified(after)
  {
    hide WasOver;
  }

  lemma {:induction false} JustifiedEnforce(s: State, hash: Tenant -> int, id: Id)
    requires Justified(s) && Enabled(s, hash, Enforce(id))
    ensures Justified(Apply(s, hash, Enforce(id)))
  {
    hide Decide, WasOver, Justified;
    var q := s.requests[id];
    JustifiedRequest(s, id);
    DecideRefuses(s.Ceiling((q.tenant, q.phase.key)), q.phase.current, q.phase.adding);
    var after := Apply(s, hash, Enforce(id));
    JustifiedMove(s, after, id, after.requests[id]);
  }

  lemma {:induction false} JustifiedLog(s: State, hash: Tenant -> int, id: Id, ok: bool)
    requires Justified(s) && Enabled(s, hash, LogRefusal(id, ok))
    ensures Justified(Apply(s, hash, LogRefusal(id, ok)))
  {
    hide WasOver, Justified;
    JustifiedRequest(s, id);
    var after := Apply(s, hash, LogRefusal(id, ok));
    assert ok ==> after.log == s.log + [Owed(s.requests[id])];
    JustifiedMove(s, after, id, after.requests[id]);
  }

  lemma {:induction false} JustifiedRequest(s: State, id: Id)
    requires Justified(s) && id in s.requests
    ensures RequestJustified(s.requests[id])
  {
    hide WasOver;
  }

  lemma {:induction false} JustifiedOther(s: State, hash: Tenant -> int, step: Step)
    requires Enabled(s, hash, step) && !step.Enforce? && !step.LogRefusal? && !step.Delete? && !step.ChangePlan?
    ensures var after := Apply(s, hash, step);
            after.log == s.log && step.id in after.requests && RequestJustified(after.requests[step.id])
            && after.requests == s.requests[step.id := after.requests[step.id]]
  {
    hide Publish, AddRows, WasOver;
  }

  lemma {:induction false} JustifiedStep(s: State, hash: Tenant -> int, step: Step)
    requires Justified(s)
    ensures Justified(Apply(s, hash, step))
  {
    hide WasOver, RequestJustified;
    if Enabled(s, hash, step) {
      match step {
        case Delete(_, _) =>
        case ChangePlan(_, _) =>
        case Enforce(id) => JustifiedEnforce(s, hash, id);
        case LogRefusal(id, ok) => JustifiedLog(s, hash, id, ok);
        case _ =>
          hide Apply, Justified, Enabled;
          JustifiedOther(s, hash, step);
          JustifiedMove(s, Apply(s, hash, step), step.id, Apply(s, hash, step).requests[step.id]);
      }
    }
  }

  lemma {:induction false} RefusalsAreJustified(s: State, hash: Tenant -> int, steps: seq<Step>)
    requires Justified(s)
    ensures Justified(Run(s, hash, steps))
  {
    if |steps| > 0 {
      hide Apply, Justified;
      RefusalsAreJustified(s, hash, steps[..|steps| - 1]);
      JustifiedStep(Run(s, hash, steps[..|steps| - 1]), hash, steps[|steps| - 1]);
    }
  }

  // ----- the lock is needed

  lemma {:induction false} RunTwoMore(s: State, hash: Tenant -> int, steps: seq<Step>, a: Step, b: Step)
    ensures Run(s, hash, steps + [a, b]) == Apply(Apply(Run(s, hash, steps), hash, a), hash, b)
  {
    hide Apply;
    var once := steps + [a];
    assert once[..|steps|] == steps;
    assert (steps + [a, b])[..|once|] == once;
  }

  const SKUS := "max_skus"

  /** Requests 1 and 2 of one tenant against a ceiling of one row, under a lock numbered `lock`. */
  function Two(stored: int, lock: map<int, Id>, a: Request, b: Request): State {
    State(map[("t", SKUS) := stored], map[("t", SKUS) := Num(Int(1))], lock, map[1 := a, 2 := b], [],
          History(map[], map[], {}, {}))
  }

  function Fresh(p: Phase): Request {
    Request("t", p, map[], map[])
  }

  /** One row stored, nothing begun. */
  function Start(): State {
    Two(1, map[], Fresh(Begun), Fresh(Begun))
  }

  /** No plan changes in the run. */
  ghost predicate PlanFixed(steps: seq<Step>) {
    forall i :: 0 <= i < |steps| ==> !steps[i].ChangePlan?
  }

  lemma {:induction false} StartMeans()
    ensures Start().Ceiling(("t", SKUS)) == Num(Int(1)) && Start().Rows(("t", SKUS)) == 1
  {
  }

  /** The row is deleted, and only request 1 takes the lock. */
  lemma {:induction false} StageLock(hash: Tenant -> int)
    ensures Apply(Start(), hash, Delete(("t", SKUS), 1)) == Two(0, map[], Fresh(Begun), Fresh(Begun))
    ensures Apply(Apply(Two(0, map[], Fresh(Begun), Fresh(Begun)), hash, TakeLock(1)), hash, SkipLock(2))
         == Two(0, map[hash("t") := 1], Fresh(Locked), Fresh(Locked))
  {
  }

  lemma {:induction false} StageCount(hash: Tenant -> int, lock: map<int, Id>)
    ensures Apply(Apply(Two(0, lock, Fresh(Locked), Fresh(Locked)), hash, Count(1, SKUS, 1)), hash, Count(2, SKUS, 1))
         == Two(0, lock, Fresh(Counted(SKUS, 0, 1)), Fresh(Counted(SKUS, 0, 1)))
  {
  }

  function Allowance(): Request {
    Request("t", Locked, map[], map[SKUS := 1])
  }

  lemma {:induction false} StageEnforce(hash: Tenant -> int, lock: map<int, Id>)
    ensures Apply(Apply(Two(0, lock, Fresh(Counted(SKUS, 0, 1)), Fresh(Counted(SKUS, 0, 1))), hash, Enforce(1)), hash,
                  Enforce(2))
         == Two(0, lock, Allowance(), Allowance())
  {
    assert Decide(Num(Int(1)), 0, 1) == Allowed;
  }

  function Written(): Request {
    Request("t", Locked, map[SKUS := 1], map[SKUS := 0])
  }

  lemma {:induction false} StageInsert(hash: Tenant -> int, lock: map<int, Id>)
    ensures Apply(Apply(Two(0, lock, Allowance(), Allowance()), hash, Insert(1, SKUS, 1, false)), hash,
                  Insert(2, SKUS, 1, false))
         == Two(0, lock, Written(), Written())
  {
    assert Allowance().cleared[SKUS := 0] == Written().cleared;
    assert Allowance().pending[SKUS := 1] == Written().pending;
    var s := Two(0, lock, Allowance(), Allowance());
    var first := Two(0, lock, Written(), Allowance());
    InsertMeans(s, hash, 1, SKUS, 1);
    InsertMeans(first, hash, 2, SKUS, 1);
    hide Apply;
    assert s.requests[1 := Written()] == first.requests;
    assert first.requests[2 := Written()] == Two(0, lock, Written(), Written()).requests;
  }

  /** Writing what was allowed, inside the transaction. */
  lemma {:induction false} InsertMeans(s: State, hash: Tenant -> int, id: Id, key: string, n: nat)
    requires Enabled(s, hash, Insert(id, key, n, false))
    ensures var q := s.requests[id];
            var written := q.(cleared := q.cleared[key := q.Cleared(key) - n],
                              pending := q.pending[key := q.Pending(key) + n]);
            Apply(s, hash, Insert(id, key, n, false)) == s.(requests := s.requests[id := written])
  {
  }

  lemma {:induction false} StageCommit(hash: Tenant -> int, lock: map<int, Id>)
    ensures Apply(Apply(Two(0, lock, Written(), Written()), hash, Commit(1)), hash, Commit(2)).Rows(("t", SKUS)) == 2
  {
    var once := Apply(Two(0, lock, Written(), Written()), hash, Commit(1));
    PublishedRows(map[("t", SKUS) := 0], "t", map[SKUS := 1], ("t", SKUS));
    PublishedRows(once.rows, "t", map[SKUS := 1], ("t", SKUS));
    hide Publish;
  }

  /**
  One writer without the lock is enough: a row is deleted after that writer looked it up, so
  its update inserts a new one, while a writer that holds the lock has counted and not yet
  committed. Both are allowed the one row of the plan.
  */
  lemma {:induction false} WithoutTheLock(hash: Tenant -> int) returns (steps: seq<Step>)
    ensures PlanFixed(steps) && (forall id :: SkipLock(id) in steps ==> id == 2)
    ensures Start().Ceiling(("t", SKUS)) == Num(Int(1)) && Start().Rows(("t", SKUS)) == 1
    ensures Run(Start(), hash, steps).Rows(("t", SKUS)) == 2
  {
    hide Apply, Two, Fresh, Allowance, Written;
    var lock := map[hash("t") := 1];
    StartMeans();
    steps := [Delete(("t", SKUS), 1)];
    assert steps[..0] == [];
    assert Run(Start(), hash, []) == Start();
    StageLock(hash);
    StageCount(hash, lock);
    StageEnforce(hash, lock);
    StageInsert(hash, lock);
    StageCommit(hash, lock);
    RunTwoMore(Start(), hash, steps, TakeLock(1), SkipLock(2));
    steps := steps + [TakeLock(1), SkipLock(2)];
    RunTwoMore(Start(), hash, steps, Count(1, SKUS, 1), Count(2, SKUS, 1));
    steps := steps + [Count(1, SKUS, 1), Count(2, SKUS, 1)];
    RunTwoMore(Start(), hash, steps, Enforce(1), Enforce(2));
    steps := steps + [Enforce(1), Enforce(2)];
    RunTwoMore(Start(), hash, steps, Insert(1, SKUS, 1, false), Insert(2, SKUS, 1, false));
    steps := steps + [Insert(1, SKUS, 1, false), Insert(2, SKUS, 1, false)];
    RunTwoMore(Start(), hash, steps, Commit(1), Commit(2));
    steps := steps + [Commit(1), Commit(2)];
  }

  /**
  From that state the ceiling holds in every run in which all writers take the lock, and it
  fails in some run as soon as one writer may skip it.
  */
  lemma {:induction false} EveryWriterMustLock(hash: Tenant -> int, skippers: set<Id>)
    requires skippers <= {2}
    ensures (forall steps: seq<Step> :: PlanFixed(steps) && (forall id :: SkipLock(id) in steps ==> id in skippers) ==>
               Run(Start(), hash, steps).Rows(("t", SKUS)) <= 1)
       <==> skippers == {}
  {
    hide Run;
    if skippers == {} {
      forall steps: seq<Step> | PlanFixed(steps) && (forall id :: SkipLock(id) !in steps)
        ensures Run(Start(), hash, steps).Rows(("t", SKUS)) <= 1
      {
        StartBounded(hash);
        NoneSkips(steps);
        RowsNeverPassCeiling(Start(), hash, steps, map[("t", SKUS) := 1]);
      }
    } else {
      var steps := WithoutTheLock(hash);
    }
  }

  lemma {:induction false} NoneSkips(steps: seq<Step>)
    requires forall id :: SkipLock(id) !in steps
    ensures forall i :: 0 <= i < |steps| ==> !steps[i].SkipLock?
  {
    forall i | 0 <= i < |steps| ensures !steps[i].SkipLock? {
      assert steps[i] in steps;
    }
  }

  lemma {:induction false} StartBounded(hash: Tenant -> int)
    ensures Exclusive(Start(), hash) && Bounded(Start(), map[("t", SKUS) := 1])
  {
  }

  // ----- several ceilings before the first write

  /** `Count` and `Enforce` of one ceiling. */
  function Check(s: State, hash: Tenant -> int, id: Id, key: string, adding: nat): State {
    Apply(Apply(s, hash, Count(id, key, adding)), hash, Enforce(id))
  }

  ghost predicate WouldAllow(s: State, id: Id, key: string, adding: nat) {
    id in s.requests && s.requests[id].phase.Locked?
    && var q := s.requests[id];
       Decide(s.Ceiling((q.tenant, key)), s.Rows((q.tenant, key)) + q.Pending(key), adding) == Allowed
  }

  lemma {:induction false} CheckMeans(s: State, hash: Tenant -> int, id: Id, key: string, adding: nat)
    requires WouldAllow(s, id, key, adding)
    ensures Check(s, hash, id, key, adding)
         == s.(requests := s.requests[id := s.requests[id].(cleared := s.requests[id].cleared[key := adding])])
  {
    hide Decide;
    var counted := Apply(s, hash, Count(id, key, adding));
    assert counted.requests[id].phase.Counted?;
    assert Check(s, hash, id, key, adding).requests
        == s.requests[id := s.requests[id].(cleared := s.requests[id].cleared[key := adding])];
  }

  /** Both ceilings of a new stock row are decided, and decided again: the second pass changes nothing. */
  lemma {:induction false} CheckedTwice(s: State, hash: Tenant -> int, id: Id, skus: string, places: string)
    requires skus != places && WouldAllow(s, id, skus, 1) && WouldAllow(s, id, places, 1)
    ensures var q := s.requests[id];
            var once := Check(Check(s, hash, id, skus, 1), hash, id, places, 1);
            once == s.(requests := s.requests[id := q.(cleared := q.cleared[skus := 1][places := 1])])
            && Check(Check(once, hash, id, skus, 1), hash, id, places, 1) == once
  {
    hide Decide, Check, Apply;
    var q := s.requests[id];
    var first := Check(s, hash, id, skus, 1);
    CheckMeans(s, hash, id, skus, 1);
    var once := Check(first, hash, id, places, 1);
    CheckMeans(first, hash, id, places, 1);
    CheckMeans(once, hash, id, skus, 1);
    assert once.requests[id].cleared[skus := 1] == once.requests[id].cleared;
    assert Check(once, hash, id, skus, 1) == once;
    CheckMeans(once, hash, id, places, 1);
    assert once.requests[id].cleared[places := 1] == once.requests[id].cleared;
    assert Check(once, hash, id, places, 1) == once;
  }

  /**
  A count and its decision: the rows stored and the request's own unwritten ones are counted, and the
  request goes on, is refused with that count, or fails, as the ceiling says. Nothing else changes.
  */
  lemma {:induction false} CheckExactly(s: State, hash: Tenant -> int, id: Id, key: string, adding: nat)
    requires id in s.requests && s.requests[id].phase.Locked?
    ensures var q, after := s.requests[id], Check(s, hash, id, key, adding);
            var ceiling, count := s.Ceiling((q.tenant, key)), s.Rows((q.tenant, key)) + q.Pending(key);
            id in after.requests && after.requests == s.requests[id := after.requests[id]]
            && after.rows == s.rows && after.ceilings == s.ceilings && after.holder == s.holder && after.log == s.log
            && (after.requests[id].phase == match Decide(ceiling, count, adding)
                                            case Allowed => Locked
                                            case Refused(max) => Refusing(key, count, max)
                                            case Uncomparable => Over)
            && after.requests[id].tenant == q.tenant && after.requests[id].pending == q.pending
            && after.requests[id].cleared == (if after.requests[id].phase.Locked? then q.cleared[key := adding]
                                              else q.cleared)
  {
    hide Decide, Request.Pending, State.Rows, State.Ceiling;
    CountMeans(s, hash, id, key, adding);
    var counted := Apply(s, hash, Count(id, key, adding));
    assert counted.Ceiling((counted.requests[id].tenant, key)) == s.Ceiling((s.requests[id].tenant, key)) by {
      SameCeiling(s, counted, (s.requests[id].tenant, key));
    }
  }

  lemma {:induction false} SameCeiling(s: State, after: State, r: Resource)
    requires after.ceilings == s.ceilings
    ensures after.Ceiling(r) == s.Ceiling(r)
  {
  }

  lemma {:induction false} CountMeans(s: State, hash: Tenant -> int, id: Id, key: string, adding: nat)
    requires id in s.requests && s.requests[id].phase.Locked?
    ensures var q := s.requests[id];
            Apply(s, hash, Count(id, key, adding))
            == s.(requests := s.requests[id := q.(phase :=
                    Counted(key, s.Rows((q.tenant, key)) + q.Pending(key), adding))])
  {
  }

  /** A commit stores what the request wrote, the other ends store nothing; all of them free the lock. */
  lemma {:induction false} EndExactly(s: State, hash: Tenant -> int, step: Step, r: Resource)
    requires step.Commit? || step.Rollback? || step.Cancel?
    requires Enabled(s, hash, step)
    ensures var q, after := s.requests[step.id], Apply(s, hash, step);
            after.Rows(r) == s.Rows(r) + (if step.Commit? && r.0 == q.tenant then q.Pending(r.1) else 0)
            && hash(q.tenant) !in after.holder && step.id in after.requests && !after.requests[step.id].Holding()
            && forall other :: other in s.requests && other != step.id
                               ==> other in after.requests && after.requests[other] == s.requests[other]
  {
    hide Publish;
    PublishedRows(s.rows, s.requests[step.id].tenant, s.requests[step.id].pending, r);
  }

  /** Only then are both rows written, and the allowance is used up. */
  lemma {:induction false} StockRowIsWritten(s: State, hash: Tenant -> int, id: Id, skus: string, places: string)
    requires skus != places && WouldAllow(s, id, skus, 1) && WouldAllow(s, id, places, 1)
    ensures var q := s.requests[id];
            var once := Check(Check(s, hash, id, skus, 1), hash, id, places, 1);
            var twice := Check(Check(once, hash, id, skus, 1), hash, id, places, 1);
            var written := Apply(Apply(twice, hash, Insert(id, skus, 1, false)), hash, Insert(id, places, 1, false));
            id in written.requests && written.rows == s.rows && written.requests[id].phase.Locked?
            && written.requests[id].Pending(skus) == q.Pending(skus) + 1 && written.requests[id].Cleared(skus) == 0
            && written.requests[id].Pending(places) == q.Pending(places) + 1
            && written.requests[id].Cleared(places) == 0
  {
    CheckedTwice(s, hash, id, skus, places);
    var once := Check(Check(s, hash, id, skus, 1), hash, id, places, 1);
    hide Decide, Check;
    InsertMeans(once, hash, id, skus, 1);
    InsertMeans(Apply(once, hash, Insert(id, skus, 1, false)), hash, id, places, 1);
    hide Apply;
  }
}
