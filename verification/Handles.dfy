/** Server-held handles: minting under quotas, resolving, revoking and listing,
    with a full sweep of expired handles at most once a second unless forced. */
module Handles {
  import opened Common
  import opened Quota

  const MAX_HANDLE_CHARS := 256

  datatype HandleRecord = HandleRecord(handle: string, principal: string, tenant: string, kind: string,
                                       createdAt: real, expiresAt: real)

  type Records = map<string, HandleRecord>

  datatype Limits = Limits(max: int, perPrincipal: int, perTenant: int, maxTtl: int)

  datatype MintError = NoCaller | BadTtl | RegistryFull | PrincipalLimit | TenantLimit

  datatype MintResult = Minted(handle: string) | MintFailed(why: MintError)

  /** What one mint call is given; the handle is the fresh random one. */
  datatype MintRequest = MintRequest(principal: string, tenant: string, kind: string, ttl: int,
                                     now: real, handle: string)

  function Issued(q: MintRequest): HandleRecord {
    HandleRecord(q.handle, q.principal, q.tenant, q.kind, q.now, q.now + q.ttl as real)
  }

  /** The registry's contents and the next reading at which it sweeps unforced. */
  datatype Registry = Registry(records: Records, nextPurge: real)

  function OwnerOf(r: HandleRecord): Owner { Owner(r.principal, r.tenant) }

  function Owners(rs: Records): Holdings { map h | h in rs :: OwnerOf(rs[h]) }

  function Live(rs: Records, now: real): Records { map h | h in rs && rs[h].expiresAt > now :: rs[h] }

  predicate KeyedByHandle(rs: Records) { forall h :: h in rs ==> rs[h].handle == h }

  // ----- what each operation does -----

  function Swept(r: Registry, now: real, force: bool): Registry {
    if !force && now < r.nextPurge then r else Registry(Live(r.records, now), now + 1.0)
  }

  function SweptIf(r: Registry, now: real, full: bool): Registry {
    if full then Swept(r, now, true) else r
  }

  ghost function HeldIn(rs: Records, o: Owner): nat { Held(Owners(rs), o) }

  ghost function TenantTotal(rs: Records, t: string): nat { |InTenant(Owners(rs), t)| }

  function Caller(q: MintRequest): Owner { Owner(q.principal, q.tenant) }

  /** The sweeps of a mint: one unforced, then one forced before each of the
      three limits that the stored counts say is reached. */
  function SweptForTotal(l: Limits, r: Registry, q: MintRequest): Registry {
    var r' := Swept(r, q.now, false);
    SweptIf(r', q.now, |r'.records| >= l.max)
  }

  ghost function SweptForPrincipal(l: Limits, r: Registry, q: MintRequest): Registry {
    SweptIf(r, q.now, HeldIn(r.records, Caller(q)) >= l.perPrincipal)
  }

  ghost function SweptForTenant(l: Limits, r: Registry, q: MintRequest): Registry {
    SweptIf(r, q.now, TenantTotal(r.records, q.tenant) >= l.perTenant)
  }

  ghost predicate TotalFull(l: Limits, rs: Records, q: MintRequest) {
    SoftCapRefuses(|rs|, l.max, HeldIn(rs, Caller(q)))
  }

  ghost predicate PrincipalFull(l: Limits, rs: Records, q: MintRequest) {
    HeldIn(rs, Caller(q)) >= l.perPrincipal
  }

  ghost predicate TenantFull(l: Limits, rs: Records, q: MintRequest) {
    SoftCapRefuses(TenantTotal(rs, q.tenant), l.perTenant, HeldIn(rs, Caller(q)))
  }

  datatype MintStep = MintStep(after: Registry, result: MintResult)

  ghost function MintOn(l: Limits, r: Registry, q: MintRequest): MintStep {
    if q.principal == "" || q.tenant == "" then MintStep(r, MintFailed(NoCaller))
    else if !(0 < q.ttl <= l.maxTtl) then MintStep(r, MintFailed(BadTtl))
    else
      var r1 := SweptForTotal(l, r, q);
      if TotalFull(l, r1.records, q) then MintStep(r1, MintFailed(RegistryFull))
      else
        var r2 := SweptForPrincipal(l, r1, q);
        if PrincipalFull(l, r2.records, q) then MintStep(r2, MintFailed(PrincipalLimit))
        else
          var r3 := SweptForTenant(l, r2, q);
          if TenantFull(l, r3.records, q) then MintStep(r3, MintFailed(TenantLimit))
          else MintStep(r3.(records := r3.records[q.handle := Issued(q)]), Minted(q.handle))
  }

  datatype ResolveStep = ResolveStep(after: Registry, record: Option<HandleRecord>)

  function ResolveOn(r: Registry, handle: string, principal: string, tenant: string,
                     kind: Option<string>, now: real): ResolveStep {
    if |handle| > MAX_HANDLE_CHARS || handle !in r.records then ResolveStep(r, None)
    else
      var record := r.records[handle];
      if record.expiresAt <= now then ResolveStep(r.(records := r.records - {handle}), None)
      else if || record.principal != principal || record.tenant != tenant
              || (kind.Some? && record.kind != kind.value) then ResolveStep(r, None)
      else ResolveStep(r, Some(record))
  }

  /** The handles of a principal, within one tenant when one is given. */
  function Matching(rs: Records, principal: string, tenant: Option<string>): set<HandleRecord> {
    set h | h in rs && rs[h].principal == principal
            && (tenant.None? || rs[h].tenant == tenant.value) :: rs[h]
  }

  function WithoutMatching(rs: Records, principal: string, tenant: Option<string>): Records {
    map h | h in rs && !(rs[h].principal == principal
                         && (tenant.None? || rs[h].tenant == tenant.value)) :: rs[h]
  }

  // ----- the class -----

  ghost predicate InStep(rs: Records, owners: map<Owner, int>, tenants: map<string, int>) {
    && KeyedByHandle(rs)
    && owners == OwnerCounts(Owners(rs))
    && tenants == TenantCounts(Owners(rs))
  }

  lemma EmptyInStep()
    ensures InStep(map[], map[], map[])
  {
    assert Owners(map[]) == map[];
    assert OwnerCounts(map[]) == map[] && TenantCounts(map[]) == map[];
  }

  lemma DropInStep(rs: Records, owners: map<Owner, int>, tenants: map<string, int>, h: string)
    requires InStep(rs, owners, tenants) && h in rs
    ensures InStep(rs - {h}, Decrement(owners, OwnerOf(rs[h])), Decrement(tenants, rs[h].tenant))
  {
    DecrementKeepsCounts(Owners(rs), h);
    assert Owners(rs - {h}) == Owners(rs) - {h};
  }

  lemma AddInStep(rs: Records, owners: map<Owner, int>, tenants: map<string, int>, r: HandleRecord)
    requires InStep(rs, owners, tenants) && r.handle !in rs
    ensures InStep(rs[r.handle := r], Increment(owners, OwnerOf(r)), Increment(tenants, r.tenant))
  {
    IncrementKeepsCounts(Owners(rs), r.handle, OwnerOf(r));
    OwnersAfterAdd(rs, r);
  }

  lemma OwnersAfterAdd(rs: Records, r: HandleRecord)
    ensures Owners(rs[r.handle := r]) == Owners(rs)[r.handle := OwnerOf(r)]
    ensures KeyedByHandle(rs) ==> KeyedByHandle(rs[r.handle := r])
  {
  }

  lemma CountsAreTrue(rs: Records, owners: map<Owner, int>, tenants: map<string, int>, o: Owner)
    requires InStep(rs, owners, tenants)
    ensures Get(owners, o, 0) == HeldIn(rs, o)
    ensures Get(tenants, o.tenant, 0) == TenantTotal(rs, o.tenant)
  {
    OwnerCountsExact(Owners(rs), o);
    TenantCountsExact(Owners(rs), o.tenant);
  }

  class HandleRegistry {
    const limits: Limits
    var records: Records
    var counts: map<Owner, int>
    var tenantCounts: map<string, int>
    var nextPurge: real

    constructor (limits: Limits)
      ensures Valid() && State() == Registry(map[], 0.0) && this.limits == limits
    {
      this.limits := limits;
      records, counts, tenantCounts, nextPurge := map[], map[], map[], 0.0;
      EmptyInStep();
    }

    ghost predicate Valid()
      reads this
    {
      InStep(records, counts, tenantCounts)
    }

    function State(): Registry
      reads this
    {
      Registry(records, nextPurge)
    }

    method Drop(handle: string) returns (record: Option<HandleRecord>)
      requires Valid()
      modifies this
      ensures Valid()
      ensures State() == old(State()).(records := old(records) - {handle})
      ensures record == if handle in old(records) then Some(old(records)[handle]) else None
    {
      if handle !in records {
        assert records - {handle} == records;
        return None;
      }
      DropInStep(records, counts, tenantCounts, handle);
      var r := records[handle];
      records := records - {handle};
      counts := Decrement(counts, OwnerOf(r));
      tenantCounts := Decrement(tenantCounts, r.tenant);
      return Some(r);
    }

    /** Drop each of some handles, one by one. */
    method DropAll(handles: set<string>)
      requires Valid() && handles <= records.Keys
      modifies this
      ensures Valid()
      ensures State() == old(State()).(records := old(records) - handles)
    {
      var todo := handles;
      while todo != {}
        invariant Valid() && nextPurge == old(nextPurge)
        invariant todo <= handles
        invariant records == old(records) - (handles - todo)
        decreases todo
      {
        var h :| h in todo;
        var _ := Drop(h);
        todo := todo - {h};
      }
    }

    method Purge(now: real, force: bool)
      requires Valid()
      modifies this
      ensures Valid() && State() == Swept(old(State()), now, force)
    {
      if !force && now < nextPurge {
        return;
      }
      nextPurge := now + 1.0;
      DropAll(set h | h in records && records[h].expiresAt <= now);
    }

    /** Mint's checks, in order: the whole registry, the caller, its tenant. */
    method TotalLimit(q: MintRequest) returns (full: bool)
      requires Valid()
      modifies this
      ensures Valid() && State() == SweptForTotal(limits, old(State()), q)
      ensures full == TotalFull(limits, records, q)
    {
      Purge(q.now, false);
      if |records| >= limits.max {
        Purge(q.now, true);
      }
      CountsAreTrue(records, counts, tenantCounts, Caller(q));
      var mine := Get(counts, Caller(q), 0);
      full := |records| >= limits.max && (mine >= OWNER_FLOOR || |records| >= 2 * limits.max);
    }

    method PrincipalLimit(q: MintRequest) returns (full: bool)
      requires Valid()
      modifies this
      ensures Valid() && State() == SweptForPrincipal(limits, old(State()), q)
      ensures full == PrincipalFull(limits, records, q)
    {
      full := false;
      CountsAreTrue(records, counts, tenantCounts, Caller(q));
      if Get(counts, Caller(q), 0) >= limits.perPrincipal {
        Purge(q.now, true);
        CountsAreTrue(records, counts, tenantCounts, Caller(q));
        full := Get(counts, Caller(q), 0) >= limits.perPrincipal;
      }
    }

    method TenantLimit(q: MintRequest) returns (full: bool)
      requires Valid()
      modifies this
      ensures Valid() && State() == SweptForTenant(limits, old(State()), q)
      ensures full == TenantFull(limits, records, q)
    {
      full := false;
      CountsAreTrue(records, counts, tenantCounts, Caller(q));
      if Get(tenantCounts, q.tenant, 0) >= limits.perTenant {
        Purge(q.now, true);
        CountsAreTrue(records, counts, tenantCounts, Caller(q));
        var inTenant := Get(tenantCounts, q.tenant, 0);
        full := inTenant >= limits.perTenant
                && (Get(counts, Caller(q), 0) >= OWNER_FLOOR || inTenant >= 2 * limits.perTenant);
      }
    }

    /** File a new record under its handle. */
    method Register(r: HandleRecord)
      requires Valid() && r.handle !in records
      modifies this
      ensures Valid() && State() == old(State()).(records := old(records)[r.handle := r])
    {
      AddInStep(records, counts, tenantCounts, r);
      counts := Increment(counts, OwnerOf(r));
      tenantCounts := Increment(tenantCounts, r.tenant);
      records := records[r.handle := r];
    }

    method Mint(q: MintRequest) returns (result: MintResult)
      requires Valid() && q.handle !in records
      modifies this
      ensures Valid()
      ensures MintStep(State(), result) == MintOn(limits, old(State()), q)
    {
      if q.principal == "" || q.tenant == "" {
        return MintFailed(NoCaller);
      }
      if !(0 < q.ttl <= limits.maxTtl) {
        return MintFailed(BadTtl);
      }
      var full := TotalLimit(q);
      if full {
        return MintFailed(MintError.RegistryFull);
      }
      full := PrincipalLimit(q);
      if full {
        return MintFailed(MintError.PrincipalLimit);
      }
      full := TenantLimit(q);
      if full {
        return MintFailed(MintError.TenantLimit);
      }
      Register(Issued(q));
      result := Minted(q.handle);
    }

    method Resolve(handle: string, principal: string, tenant: string, kind: Option<string>, now: real)
      returns (record: Option<HandleRecord>)
      requires Valid()
      modifies this
      ensures Valid()
      ensures ResolveStep(State(), record)
              == ResolveOn(old(State()), handle, principal, tenant, kind, now)
    {
      if |handle| > MAX_HANDLE_CHARS {
        return None;
      }
      record := if handle in records then Some(records[handle]) else None;
      if record.Some? && record.value.expiresAt <= now {
        var _ := Drop(handle);
        record := None;
      }
      if || record.None? || record.value.principal != principal || record.value.tenant != tenant
         || (kind.Some? && record.value.kind != kind.value)
      {
        return None;
      }
    }

    method AdminRevoke(handle: string) returns (found: bool)
      requires Valid()
      modifies this
      ensures Valid()
      ensures State() == old(State()).(records := old(records) - {handle})
      ensures found == (handle in old(records))
    {
      var record := Drop(handle);
      found := record.Some?;
    }

    /** None is the refusal of a caller who does not own the handle. */
    method Revoke(handle: string, principal: string, tenant: string, now: real) returns (done: Option<bool>)
      requires Valid()
      modifies this
      ensures Valid()
      ensures var seen := ResolveOn(old(State()), handle, principal, tenant, None, now);
              && (done.Some? <==> seen.record.Some?)
              && (done.Some? ==> done.value && State() == seen.after.(records := seen.after.records - {handle}))
              && (done.None? ==> State() == seen.after)
    {
      var record := Resolve(handle, principal, tenant, None, now);
      if record.None? {
        return None;
      }
      var found := AdminRevoke(record.value.handle);
      done := Some(found);
    }

    /** Each matching record, once. */
    method Listing(principal: string, tenant: Option<string>) returns (found: seq<HandleRecord>)
      requires Valid()
      ensures multiset(found) == multiset(Matching(records, principal, tenant))
    {
      found := [];
      var todo := Matching(records, principal, tenant);
      while todo != {}
        invariant todo <= Matching(records, principal, tenant)
        invariant multiset(found) + multiset(todo) == multiset(Matching(records, principal, tenant))
        decreases todo
      {
        var r :| r in todo;
        found := found + [r];
        todo := todo - {r};
      }
    }

    method RevokePrincipal(principal: string, tenant: Option<string>) returns (doomed: seq<HandleRecord>)
      requires Valid()
      modifies this
      ensures Valid()
      ensures multiset(doomed) == multiset(Matching(old(records), principal, tenant))
      ensures State() == old(State()).(records := WithoutMatching(old(records), principal, tenant))
    {
      doomed := Listing(principal, tenant);
      DropAll(set h | h in records && records[h].principal == principal
                      && (tenant.None? || records[h].tenant == tenant.value));
    }

    method ListForPrincipal(principal: string, tenant: Option<string>, now: real)
      returns (found: seq<HandleRecord>)
      requires Valid()
      modifies this
      ensures Valid() && State() == Swept(old(State()), now, true)
      ensures multiset(found) == multiset(Matching(Live(old(records), now), principal, tenant))
    {
      Purge(now, true);
      found := Listing(principal, tenant);
    }
  }
}
