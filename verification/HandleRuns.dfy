/** Whole runs of the handle registry: the amortised sweep against a registry
    that sweeps on every reading, the floor law, and handle lifetimes. */
module HandleRuns {
  import opened Common
  import opened Quota
  import opened Handles

  datatype Op =
    | Mint(q: MintRequest)
    | Resolve(handle: string, principal: string, tenant: string, kind: Option<string>, now: real)
    | AdminRevoke(handle: string)
    | RevokePrincipal(principal: string, within: Option<string>)
    | List(principal: string, within: Option<string>, now: real)

  datatype Reply =
    | MintReply(result: MintResult)
    | ResolveReply(record: Option<HandleRecord>)
    | RevokeReply(found: bool)
    | Records(records: set<HandleRecord>)

  /** Whether an operation reads the clock, and the reading. */
  predicate Clocked(op: Op) { op.Mint? || op.Resolve? || op.List? }

  function Reading(op: Op): real
    requires Clocked(op)
  {
    if op.Mint? then op.q.now else op.now
  }

  datatype Lazy = Lazy(registry: Registry, reply: Reply)

  ghost function LazyStep(l: Limits, r: Registry, op: Op): Lazy {
    match op
    case Mint(q) => var m := MintOn(l, r, q); Lazy(m.after, MintReply(m.result))
    case Resolve(h, p, t, k, now) => var s := ResolveOn(r, h, p, t, k, now); Lazy(s.after, ResolveReply(s.record))
    case AdminRevoke(h) => Lazy(r.(records := r.records - {h}), RevokeReply(h in r.records))
    case RevokePrincipal(p, t) =>
      Lazy(r.(records := WithoutMatching(r.records, p, t)), Reply.Records(Matching(r.records, p, t)))
    case List(p, t, now) =>
      var s := Swept(r, now, true);
      Lazy(s, Reply.Records(Matching(s.records, p, t)))
  }

  // ----- the reference: sweep at every reading, then decide plainly -----

  datatype Eager = Eager(records: Handles.Records, reply: Reply)

  ghost function EagerMint(l: Limits, live: Handles.Records, q: MintRequest): Eager {
    if q.principal == "" || q.tenant == "" then Eager(live, MintReply(MintFailed(NoCaller)))
    else if !(0 < q.ttl <= l.maxTtl) then Eager(live, MintReply(MintFailed(BadTtl)))
    else if TotalFull(l, live, q) then Eager(live, MintReply(MintFailed(RegistryFull)))
    else if PrincipalFull(l, live, q) then Eager(live, MintReply(MintFailed(PrincipalLimit)))
    else if TenantFull(l, live, q) then Eager(live, MintReply(MintFailed(TenantLimit)))
    else Eager(live[q.handle := Issued(q)], MintReply(Minted(q.handle)))
  }

  ghost function EagerResolve(live: Handles.Records, op: Op): Eager
    requires op.Resolve?
  {
    var ok := |op.handle| <= MAX_HANDLE_CHARS && op.handle in live
              && live[op.handle].principal == op.principal && live[op.handle].tenant == op.tenant
              && (op.kind.None? || live[op.handle].kind == op.kind.value);
    Eager(live, ResolveReply(if ok then Some(live[op.handle]) else None))
  }

  ghost function EagerStep(l: Limits, rs: Handles.Records, op: Op): Eager {
    var live := if Clocked(op) then Live(rs, Reading(op)) else rs;
    match op
    case Mint(q) => EagerMint(l, live, q)
    case Resolve(_, _, _, _, _) => EagerResolve(live, op)
    case AdminRevoke(h) => Eager(live - {h}, RevokeReply(h in live))
    case RevokePrincipal(p, t) => Eager(WithoutMatching(live, p, t), Reply.Records(Matching(live, p, t)))
    case List(p, t, _) => Eager(live, Reply.Records(Matching(live, p, t)))
  }

  // ----- runs -----

  ghost function LazyAfter(l: Limits, ops: seq<Op>, n: nat): Registry
    requires n <= |ops|
  {
    if n == 0 then Registry(map[], 0.0) else LazyStep(l, LazyAfter(l, ops, n - 1), ops[n - 1]).registry
  }

  ghost function LazyReply(l: Limits, ops: seq<Op>, i: nat): Reply
    requires i < |ops|
  {
    LazyStep(l, LazyAfter(l, ops, i), ops[i]).reply
  }

  ghost function EagerAfter(l: Limits, ops: seq<Op>, n: nat): Handles.Records
    requires n <= |ops|
  {
    if n == 0 then map[] else EagerStep(l, EagerAfter(l, ops, n - 1), ops[n - 1]).records
  }

  ghost function EagerReply(l: Limits, ops: seq<Op>, i: nat): Reply
    requires i < |ops|
  {
    EagerStep(l, EagerAfter(l, ops, i), ops[i]).reply
  }

  /** The latest reading among the first n operations, start when there is none. */
  function LastReading(start: real, ops: seq<Op>, n: nat): real
    requires n <= |ops|
  {
    if n == 0 then start
    else if Clocked(ops[n - 1]) then Reading(ops[n - 1])
    else LastReading(start, ops, n - 1)
  }

  /** Readings never decrease in the order the lock admits the operations. */
  ghost predicate ClockHolds(start: real, ops: seq<Op>) {
    forall i {:trigger ops[i]} :: 0 <= i < |ops| && Clocked(ops[i]) ==>
      LastReading(start, ops, i) <= Reading(ops[i])
  }

  // ----- the sweep is unobservable -----

  lemma LiveCounts(rs: Handles.Records, now: real, o: Owner)
    ensures |Live(rs, now)| <= |rs|
    ensures HeldIn(Live(rs, now), o) <= HeldIn(rs, o)
    ensures TenantTotal(Live(rs, now), o.tenant) <= TenantTotal(rs, o.tenant)
  {
    var live := Live(rs, now);
    SubsetSize(live.Keys, rs.Keys);
    assert |live.Keys| == |live| && |rs.Keys| == |rs|;
    SubsetSize(IdsOf(Owners(live), o), IdsOf(Owners(rs), o));
    var a, b := InTenant(Owners(live), o.tenant), InTenant(Owners(rs), o.tenant);
    SubsetSize(a.Keys, b.Keys);
    assert |a.Keys| == |a| && |b.Keys| == |b|;
  }

  lemma LiveTwice(rs: Handles.Records, t: real, now: real)
    requires t <= now
    ensures Live(Live(rs, t), now) == Live(rs, now)
  {
  }

  /** Each stage of mint leaves the live records alone and decides as if only
      they were there. */
  lemma TotalStage(l: Limits, r: Registry, q: MintRequest)
    ensures var r', live := SweptForTotal(l, r, q), Live(r.records, q.now);
            Live(r'.records, q.now) == live && (TotalFull(l, r'.records, q) <==> TotalFull(l, live, q))
  {
    LiveTwice(r.records, q.now, q.now);
    LiveCounts(r.records, q.now, Caller(q));
  }

  lemma PrincipalStage(l: Limits, r: Registry, q: MintRequest)
    ensures var r', live := SweptForPrincipal(l, r, q), Live(r.records, q.now);
            Live(r'.records, q.now) == live && (PrincipalFull(l, r'.records, q) <==> PrincipalFull(l, live, q))
  {
    LiveTwice(r.records, q.now, q.now);
    LiveCounts(r.records, q.now, Caller(q));
  }

  lemma TenantStage(l: Limits, r: Registry, q: MintRequest)
    ensures var r', live := SweptForTenant(l, r, q), Live(r.records, q.now);
            Live(r'.records, q.now) == live && (TenantFull(l, r'.records, q) <==> TenantFull(l, live, q))
  {
    LiveTwice(r.records, q.now, q.now);
    LiveCounts(r.records, q.now, Caller(q));
  }

  lemma MintSimulated(l: Limits, r: Registry, q: MintRequest)
    ensures var m, e := MintOn(l, r, q), EagerMint(l, Live(r.records, q.now), q);
            e.reply == MintReply(m.result) && e.records == Live(m.after.records, q.now)
  {
    var r1 := SweptForTotal(l, r, q);
    var r2 := SweptForPrincipal(l, r1, q);
    var r3 := SweptForTenant(l, r2, q);
    TotalStage(l, r, q);
    PrincipalStage(l, r1, q);
    TenantStage(l, r2, q);
    if 0 < q.ttl {
      assert Live(r3.records[q.handle := Issued(q)], q.now) == Live(r3.records, q.now)[q.handle := Issued(q)];
    }
  }

  /** One operation, from any registry whose live part the reference holds. */
  lemma StepSimulated(l: Limits, r: Registry, t: real, op: Op)
    requires Clocked(op) ==> t <= Reading(op)
    ensures var a, e := LazyStep(l, r, op), EagerStep(l, Live(r.records, t), op);
            && e.records == Live(a.registry.records, if Clocked(op) then Reading(op) else t)
            && (Clocked(op) ==> a.reply == e.reply)
  {
    if Clocked(op) {
      LiveTwice(r.records, t, Reading(op));
    }
    if op.Mint? {
      MintSimulated(l, r, op.q);
    }
  }

  lemma {:induction false} ReferenceHoldsLive(l: Limits, start: real, ops: seq<Op>, n: nat)
    requires n <= |ops| && ClockHolds(start, ops)
    ensures EagerAfter(l, ops, n) == Live(LazyAfter(l, ops, n).records, LastReading(start, ops, n))
    decreases n
  {
    if n > 0 {
      ReferenceHoldsLive(l, start, ops, n - 1);
      StepSimulated(l, LazyAfter(l, ops, n - 1), LastReading(start, ops, n - 1), ops[n - 1]);
    }
  }

  /** Every mint, resolve and list answer of the amortised registry, over every
      run, is the answer of the registry that sweeps at each reading. */
  lemma SweepUnobservable(l: Limits, start: real, ops: seq<Op>, i: nat)
    requires i < |ops| && ClockHolds(start, ops) && Clocked(ops[i])
    ensures LazyReply(l, ops, i) == EagerReply(l, ops, i)
  {
    ReferenceHoldsLive(l, start, ops, i);
    StepSimulated(l, LazyAfter(l, ops, i), LastReading(start, ops, i), ops[i]);
  }

  /** No expired handle that the revocation asks for is still waiting to be swept. */
  ghost predicate NoneWaiting(rs: Handles.Records, t: real, op: Op)
    requires !Clocked(op)
  {
    if op.AdminRevoke? then op.handle !in rs || rs[op.handle].expiresAt > t
    else forall r :: r in Matching(rs, op.principal, op.within) ==> r.expiresAt > t
  }

  /** The two revocations read no clock, and there the sweep does show: the
      answers agree exactly when no expired handle asked for is still waiting. */
  lemma RevokeAnswersAgreeExactlyWhen(l: Limits, start: real, ops: seq<Op>, i: nat)
    requires i < |ops| && ClockHolds(start, ops) && !Clocked(ops[i])
    ensures LazyReply(l, ops, i) == EagerReply(l, ops, i) <==>
            NoneWaiting(LazyAfter(l, ops, i).records, LastReading(start, ops, i), ops[i])
  {
    ReferenceHoldsLive(l, start, ops, i);
    var rs, t := LazyAfter(l, ops, i).records, LastReading(start, ops, i);
    if ops[i].RevokePrincipal? {
      MatchingLive(rs, t, ops[i].principal, ops[i].within);
    }
  }

  lemma MatchingLive(rs: Handles.Records, t: real, p: string, w: Option<string>)
    ensures Matching(Live(rs, t), p, w) == set r | r in Matching(rs, p, w) && r.expiresAt > t
  {
    forall r | r in Matching(rs, p, w) && r.expiresAt > t ensures r in Matching(Live(rs, t), p, w) {
      var h :| h in rs && rs[h] == r && r.principal == p && (w.None? || r.tenant == w.value);
      assert Live(rs, t)[h] == r;
    }
  }

  /** And it does happen: an expired handle is reported as just revoked. */
  lemma StaleRevokeIsReported()
    ensures exists l: Limits, ops: seq<Op> ::
              && |ops| == 3 && ClockHolds(0.0, ops) && ops[2].AdminRevoke?
              && LazyReply(l, ops, 2) != EagerReply(l, ops, 2)
  {
    var l := Limits(10, 10, 10, 60);
    var q := MintRequest("ann", "t", "task", 1, 1.0, "h");
    var ops := [Op.Mint(q), Op.Resolve("other", "ann", "t", None, 2.5), Op.AdminRevoke("h")];
    StaleRevoke(l, ops);
  }

  lemma FirstMint(l: Limits, q: MintRequest)
    requires q.principal != "" && q.tenant != "" && 0 < q.ttl <= l.maxTtl
    requires l.max > 0 && l.perPrincipal > 0 && l.perTenant > 0
    ensures MintOn(l, Registry(map[], 0.0), q).result == Minted(q.handle)
  {
    FewAreAdmitted(l, Live(map[], q.now), q);
    FewAreAdmitted(l, map[], q);
  }

  lemma StillHeld(l: Limits, r: Registry, q: MintRequest, op: Op)
    requires MintOn(l, r, q).result == Minted(q.handle) && op.Resolve? && op.handle != q.handle
    ensures var after := LazyStep(l, LazyStep(l, r, Op.Mint(q)).registry, op).registry.records;
            q.handle in after && after[q.handle] == Issued(q)
  {
    RecordStarts(l, r, q);
  }

  /** A handle whose expiry passes while only another is resolved. */
  lemma StaleRevoke(l: Limits, ops: seq<Op>)
    requires |ops| == 3 && ops[0].Mint? && ops[1].Resolve? && ops[2] == Op.AdminRevoke(ops[0].q.handle)
    requires var q := ops[0].q;
             && q.principal != "" && q.tenant != "" && 0 < q.ttl <= l.maxTtl && q.now >= 0.0
             && ops[1].handle != q.handle && ops[1].now >= Issued(q).expiresAt
    requires l.max > 0 && l.perPrincipal > 0 && l.perTenant > 0
    ensures ClockHolds(0.0, ops) && LazyReply(l, ops, 2) != EagerReply(l, ops, 2)
  {
    var q := ops[0].q;
    FirstMint(l, q);
    StillHeld(l, Registry(map[], 0.0), q, ops[1]);
    assert LazyAfter(l, ops, 1) == LazyStep(l, Registry(map[], 0.0), ops[0]).registry;
    assert LastReading(0.0, ops, 1) == q.now;
    assert LastReading(0.0, ops, 2) == ops[1].now;
    RevokeAnswersAgreeExactlyWhen(l, 0.0, ops, 2);
  }

  lemma FewAreAdmitted(l: Limits, rs: Handles.Records, q: MintRequest)
    requires rs == map[] && l.max > 0 && l.perPrincipal > 0 && l.perTenant > 0
    ensures !TotalFull(l, rs, q) && !PrincipalFull(l, rs, q) && !TenantFull(l, rs, q)
  {
    assert IdsOf(Owners(rs), Caller(q)) == {};
    assert InTenant(Owners(rs), q.tenant) == map[];
  }

  // ----- the floor law -----

  lemma StepKeepsFair(l: Limits, r: Registry, op: Op)
    requires Fair(Owners(r.records), l.max, l.perTenant)
    requires op.Mint? ==> op.q.handle !in r.records
    ensures Fair(Owners(LazyStep(l, r, op).registry.records), l.max, l.perTenant)
  {
    if op.Mint? {
      MintKeepsFair(l, r, op.q);
    } else {
      DropKeepsFair(Owners(r.records), Owners(LazyStep(l, r, op).registry.records), l.max, l.perTenant);
    }
  }

  lemma MintKeepsFair(l: Limits, r: Registry, q: MintRequest)
    requires Fair(Owners(r.records), l.max, l.perTenant) && q.handle !in r.records
    ensures Fair(Owners(MintOn(l, r, q).after.records), l.max, l.perTenant)
  {
    var r1 := SweptForTotal(l, r, q);
    var r2 := SweptForPrincipal(l, r1, q);
    var r3 := SweptForTenant(l, r2, q);
    StagesWithin(l, r, q);
    StagesKeepFair(l, r, r1, r2, r3);
    MintResults(l, r, q);
    if MintOn(l, r, q).result.Minted? {
      TotalStillOpen(l, r1.records, r3.records, q);
      RecordKeepsFair(l, r3.records, q);
    }
  }

  /** A mint leaves the registry one of its sweeps left, with a new record last. */
  lemma MintResults(l: Limits, r: Registry, q: MintRequest)
    ensures var m, r1 := MintOn(l, r, q), SweptForTotal(l, r, q);
            var r2 := SweptForPrincipal(l, r1, q);
            var r3 := SweptForTenant(l, r2, q);
            if m.result.Minted? then
              (&& !TotalFull(l, r1.records, q) && !TenantFull(l, r3.records, q)
               && m.after.records == r3.records[q.handle := Issued(q)])
            else m.after == r || m.after == r1 || m.after == r2 || m.after == r3
  {
  }

  /** Some of the records, as they were. */
  ghost predicate Within(after: Handles.Records, before: Handles.Records) {
    forall h :: h in after ==> h in before && after[h] == before[h]
  }

  lemma StagesWithin(l: Limits, r: Registry, q: MintRequest)
    ensures var r1 := SweptForTotal(l, r, q);
            var r2 := SweptForPrincipal(l, r1, q);
            var r3 := SweptForTenant(l, r2, q);
            && Within(r1.records, r.records) && Within(r2.records, r1.records) && Within(r3.records, r2.records)
            && Within(r3.records, r1.records)
  {
  }

  lemma StagesKeepFair(l: Limits, r: Registry, r1: Registry, r2: Registry, r3: Registry)
    requires Fair(Owners(r.records), l.max, l.perTenant)
    requires Within(r1.records, r.records) && Within(r2.records, r1.records) && Within(r3.records, r2.records)
    ensures Fair(Owners(r1.records), l.max, l.perTenant)
    ensures Fair(Owners(r2.records), l.max, l.perTenant)
    ensures Fair(Owners(r3.records), l.max, l.perTenant)
  {
    SweepKeepsFair(l, r, r1);
    SweepKeepsFair(l, r1, r2);
    SweepKeepsFair(l, r2, r3);
  }

  lemma SweepKeepsFair(l: Limits, before: Registry, after: Registry)
    requires Fair(Owners(before.records), l.max, l.perTenant)
    requires Within(after.records, before.records)
    ensures Fair(Owners(after.records), l.max, l.perTenant)
  {
    DropKeepsFair(Owners(before.records), Owners(after.records), l.max, l.perTenant);
  }

  lemma RecordKeepsFair(l: Limits, rs: Handles.Records, q: MintRequest)
    requires Fair(Owners(rs), l.max, l.perTenant) && q.handle !in rs
    requires !SoftCapRefuses(|Owners(rs)|, l.max, HeldIn(rs, Caller(q))) && !TenantFull(l, rs, q)
    ensures Fair(Owners(rs[q.handle := Issued(q)]), l.max, l.perTenant)
  {
    AdmitKeepsFair(Owners(rs), l.max, l.perTenant, q.handle, Caller(q));
    assert Owners(rs[q.handle := Issued(q)]) == Owners(rs)[q.handle := Caller(q)];
  }

  /** Later sweeps only make room. */
  lemma TotalStillOpen(l: Limits, before: Handles.Records, after: Handles.Records, q: MintRequest)
    requires Within(after, before)
    requires !TotalFull(l, before, q)
    ensures !SoftCapRefuses(|Owners(after)|, l.max, HeldIn(after, Caller(q)))
  {
    SubsetSize(Owners(after).Keys, before.Keys);
    assert |Owners(after).Keys| == |Owners(after)| && |before.Keys| == |before|;
    SubsetSize(IdsOf(Owners(after), Caller(q)), IdsOf(Owners(before), Caller(q)));
  }

  /** Handles come from fresh random bytes: none is minted twice. */
  ghost predicate FreshHandles(ops: seq<Op>) {
    forall i, j {:trigger ops[i], ops[j]} :: 0 <= i < j < |ops| && ops[i].Mint? && ops[j].Mint? ==>
      ops[i].q.handle != ops[j].q.handle
  }

  /** In every reachable registry, over the whole and inside each tenant, what
      owners hold above the floor sums to at most the cap, and totals never
      pass twice the cap. */
  lemma {:induction false} AlwaysFair(l: Limits, ops: seq<Op>, n: nat)
    requires n <= |ops| && FreshHandles(ops)
    ensures Fair(Owners(LazyAfter(l, ops, n).records), l.max, l.perTenant)
    decreases n
  {
    if n == 0 {
      assert forall t :: InTenant(Owners(map[]), t) == map[];
    } else {
      AlwaysFair(l, ops, n - 1);
      if ops[n - 1].Mint? && ops[n - 1].q.handle in LazyAfter(l, ops, n - 1).records {
        OnlyMintedAreHeld(l, ops, n - 1, ops[n - 1].q.handle);
        assert false;
      }
      StepKeepsFair(l, LazyAfter(l, ops, n - 1), ops[n - 1]);
    }
  }

  lemma {:induction false} OnlyMintedAreHeld(l: Limits, ops: seq<Op>, n: nat, h: string)
    requires n <= |ops|
    requires h in LazyAfter(l, ops, n).records
    ensures exists k :: 0 <= k < n && ops[k].Mint? && ops[k].q.handle == h
    decreases n
  {
    if n > 0 && !(ops[n - 1].Mint? && ops[n - 1].q.handle == h) {
      OnlyMintedAreHeld(l, ops, n - 1, h);
    }
  }

  /** A well-formed mint by a caller below the floor is refused exactly at a 2x
      ceiling, or at a per-principal limit set below the floor. */
  lemma FloorGuarantee(l: Limits, r: Registry, q: MintRequest)
    requires q.principal != "" && q.tenant != "" && 0 < q.ttl <= l.maxTtl
    requires HeldIn(Live(r.records, q.now), Caller(q)) < 8
    ensures var live := Live(r.records, q.now);
            MintOn(l, r, q).result.MintFailed? <==>
              || (|live| >= l.max && |live| >= 2 * l.max)
              || (TenantTotal(live, q.tenant) >= l.perTenant && TenantTotal(live, q.tenant) >= 2 * l.perTenant)
              || (l.perPrincipal < 8 && HeldIn(live, Caller(q)) >= l.perPrincipal)
  {
    MintSimulated(l, r, q);
  }

  // ----- handle lifetimes -----

  /** That limit does override the floor: with room for one handle per principal,
      a caller who holds one unexpired handle is refused the next. */
  lemma LimitOverridesFloor(l: Limits, ops: seq<Op>)
    requires |ops| == 2 && ops[0].Mint? && ops[1].Mint? && Caller(ops[0].q) == Caller(ops[1].q)
    requires forall i :: 0 <= i < 2 ==>
               ops[i].q.principal != "" && ops[i].q.tenant != "" && 0 < ops[i].q.ttl <= l.maxTtl
    requires ops[1].q.now < ops[0].q.now + ops[0].q.ttl as real
    requires l.perPrincipal == 1 && l.max > 1 && l.perTenant > 1
    ensures HeldIn(LazyAfter(l, ops, 1).records, Caller(ops[1].q)) == 1 < OWNER_FLOOR
    ensures LazyReply(l, ops, 1) == MintReply(MintFailed(PrincipalLimit))
  {
    var p, q, r := ops[0].q, ops[1].q, LazyAfter(l, ops, 1);
    FirstMint(l, p);
    RecordStarts(l, LazyAfter(l, ops, 0), p);
    forall h | h in r.records ensures h == p.handle {
      OnlyMintedAreHeld(l, ops, 1, h);
    }
    var live := Live(r.records, q.now);
    OneHeld(r.records, p);
    assert live == r.records;
    MintSimulated(l, r, q);
  }

  lemma OneHeld(rs: Handles.Records, p: MintRequest)
    requires p.handle in rs && rs[p.handle] == Issued(p) && forall h :: h in rs ==> h == p.handle
    ensures |rs| == 1 && HeldIn(rs, Caller(p)) == 1
  {
    assert rs.Keys == {p.handle};
    assert |rs| == |rs.Keys|;
    assert IdsOf(Owners(rs), Caller(p)) == {p.handle};
  }

  lemma LowLimitRefuses()
    ensures exists l: Limits, ops: seq<Op> ::
              && |ops| == 2 && ops[1].Mint? && ClockHolds(0.0, ops)
              && HeldIn(LazyAfter(l, ops, 1).records, Caller(ops[1].q)) < OWNER_FLOOR
              && LazyReply(l, ops, 1) == MintReply(MintFailed(PrincipalLimit))
  {
    var l := Limits(10, 1, 10, 60);
    var first, second := MintRequest("ann", "t", "task", 5, 1.0, "g"), MintRequest("ann", "t", "task", 5, 2.0, "h");
    var ops := [Op.Mint(first), Op.Mint(second)];
    assert LastReading(0.0, ops, 1) == 1.0;
    assert ClockHolds(0.0, ops);
    LimitOverridesFloor(l, ops);
  }

  /** An operation that takes this record away, expiry aside. */
  predicate Revokes(op: Op, r: HandleRecord) {
    || (op.AdminRevoke? && op.handle == r.handle)
    || (op.RevokePrincipal? && op.principal == r.principal
        && (op.within.None? || op.within.value == r.tenant))
  }

  ghost predicate RevokedBetween(ops: seq<Op>, i: nat, n: nat, r: HandleRecord)
    requires n <= |ops|
  {
    exists k :: i < k < n && Revokes(ops[k], r)
  }

  /** One operation on a registry that may hold the record. */
  lemma StepOnRecord(l: Limits, r: Registry, op: Op, rec: HandleRecord)
    requires op.Mint? ==> op.q.handle != rec.handle
    requires rec.handle in r.records ==> r.records[rec.handle] == rec
    ensures var after := LazyStep(l, r, op).registry.records;
            && (rec.handle in after ==> rec.handle in r.records && after[rec.handle] == rec && !Revokes(op, rec))
            && ((rec.handle in r.records && !Revokes(op, rec)
                 && (Clocked(op) ==> Reading(op) < rec.expiresAt)) ==> rec.handle in after)
  {
    if op.Mint? {
      MintOnRecord(l, r, op.q, rec);
    }
  }

  lemma MintOnRecord(l: Limits, r: Registry, q: MintRequest, rec: HandleRecord)
    requires q.handle != rec.handle
    requires rec.handle in r.records ==> r.records[rec.handle] == rec
    ensures var after := MintOn(l, r, q).after.records;
            && (rec.handle in after ==> rec.handle in r.records && after[rec.handle] == rec)
            && (rec.handle in r.records && q.now < rec.expiresAt ==> rec.handle in after)
  {
    var r1 := SweptForTotal(l, r, q);
    var r2 := SweptForPrincipal(l, r1, q);
    var r3 := SweptForTenant(l, r2, q);
    assert HoldsAlike(r, Swept(r, q.now, false), q.now, rec) && HoldsAlike(Swept(r, q.now, false), r1, q.now, rec);
    assert HoldsAlike(r1, r2, q.now, rec) && HoldsAlike(r2, r3, q.now, rec);
  }

  /** Sweeping keeps a record as it is while it is unexpired, and adds none. */
  ghost predicate HoldsAlike(r: Registry, after: Registry, now: real, rec: HandleRecord) {
    && (rec.handle in after.records ==>
          rec.handle in r.records && after.records[rec.handle] == r.records[rec.handle])
    && (rec.handle in r.records && now < r.records[rec.handle].expiresAt ==> rec.handle in after.records)
  }

  lemma RecordStarts(l: Limits, r: Registry, q: MintRequest)
    requires MintOn(l, r, q).result == Minted(q.handle)
    ensures q.handle in MintOn(l, r, q).after.records
    ensures MintOn(l, r, q).after.records[q.handle] == Issued(q)
  {
  }

  lemma {:induction false} RecordFollowed(l: Limits, start: real, ops: seq<Op>, i: nat, n: nat)
    requires i < n <= |ops| && ClockHolds(start, ops) && FreshHandles(ops)
    requires ops[i].Mint? && LazyReply(l, ops, i) == MintReply(Minted(ops[i].q.handle))
    ensures var rec, rs := Issued(ops[i].q), LazyAfter(l, ops, n).records;
            && (rec.handle in rs ==> rs[rec.handle] == rec && !RevokedBetween(ops, i, n, rec))
            && (!RevokedBetween(ops, i, n, rec) && LastReading(start, ops, n) < rec.expiresAt ==> rec.handle in rs)
    decreases n
  {
    var rec := Issued(ops[i].q);
    if n == i + 1 {
      RecordStarts(l, LazyAfter(l, ops, i), ops[i].q);
    } else {
      RecordFollowed(l, start, ops, i, n - 1);
      FollowOne(l, start, ops, i, n, rec);
    }
  }

  lemma FollowOne(l: Limits, start: real, ops: seq<Op>, i: nat, n: nat, rec: HandleRecord)
    requires i + 1 < n <= |ops| && ClockHolds(start, ops)
    requires ops[n - 1].Mint? ==> ops[n - 1].q.handle != rec.handle
    requires var rs := LazyAfter(l, ops, n - 1).records;
             && (rec.handle in rs ==> rs[rec.handle] == rec && !RevokedBetween(ops, i, n - 1, rec))
             && (!RevokedBetween(ops, i, n - 1, rec) && LastReading(start, ops, n - 1) < rec.expiresAt
                 ==> rec.handle in rs)
    ensures var rs := LazyAfter(l, ops, n).records;
            && (rec.handle in rs ==> rs[rec.handle] == rec && !RevokedBetween(ops, i, n, rec))
            && (!RevokedBetween(ops, i, n, rec) && LastReading(start, ops, n) < rec.expiresAt ==> rec.handle in rs)
  {
    StepOnRecord(l, LazyAfter(l, ops, n - 1), ops[n - 1], rec);
    assert RevokedBetween(ops, i, n, rec) <==> RevokedBetween(ops, i, n - 1, rec) || Revokes(ops[n - 1], rec);
    assert Clocked(ops[n - 1]) ==> LastReading(start, ops, n - 1) <= Reading(ops[n - 1]);
  }

  /** Some call between i and j revoked this handle, or all of this principal's in
      this tenant. */
  ghost predicate WithdrawnBetween(ops: seq<Op>, i: nat, j: nat, handle: string, principal: string, tenant: string)
    requires j <= |ops|
  {
    exists k :: i < k < j &&
      (|| ops[k] == Op.AdminRevoke(handle)
       || ops[k] == Op.RevokePrincipal(principal, None) || ops[k] == Op.RevokePrincipal(principal, Some(tenant)))
  }

  lemma WithdrawnIsRevoked(ops: seq<Op>, i: nat, j: nat, r: HandleRecord)
    requires j <= |ops|
    ensures RevokedBetween(ops, i, j, r) <==> WithdrawnBetween(ops, i, j, r.handle, r.principal, r.tenant)
  {
    forall k | i < k < j
      ensures Revokes(ops[k], r) <==>
              || ops[k] == Op.AdminRevoke(r.handle) || ops[k] == Op.RevokePrincipal(r.principal, None)
              || ops[k] == Op.RevokePrincipal(r.principal, Some(r.tenant))
    {
      if ops[k].RevokePrincipal? && ops[k].within.Some? { assert ops[k].within == Some(ops[k].within.value); }
    }
  }

  /** From its mint on, a handle resolves exactly for the principal, tenant and kind
      it was minted for, before its time to live is over and unless withdrawn in
      between, and then to the record of its mint. */
  lemma HandleLifetime(l: Limits, start: real, ops: seq<Op>, i: nat, j: nat)
    requires i < j < |ops| && ClockHolds(start, ops) && FreshHandles(ops)
    requires ops[i].Mint? && LazyReply(l, ops, i) == MintReply(Minted(ops[i].q.handle))
    requires ops[j].Resolve? && ops[j].handle == ops[i].q.handle
    ensures var q := ops[i].q;
            LazyReply(l, ops, j) == ResolveReply(
              if && |q.handle| <= 256 && ops[j].now < q.now + q.ttl as real
                 && ops[j].principal == q.principal && ops[j].tenant == q.tenant
                 && (ops[j].kind == None || ops[j].kind == Some(q.kind))
                 && !WithdrawnBetween(ops, i, j, q.handle, q.principal, q.tenant)
              then Some(HandleRecord(q.handle, q.principal, q.tenant, q.kind, q.now, q.now + q.ttl as real))
              else None)
  {
    RecordFollowed(l, start, ops, i, j);
    WithdrawnIsRevoked(ops, i, j, Issued(ops[i].q));
    assert LastReading(start, ops, j) <= Reading(ops[j]);
    if ops[j].kind.Some? { assert ops[j].kind == Some(ops[j].kind.value); }
  }

  /** A list names a minted handle exactly for its principal, within its tenant or
      in all, before its time to live is over and unless withdrawn in between. */
  lemma ListedExactlyWhen(l: Limits, start: real, ops: seq<Op>, i: nat, j: nat)
    requires i < j < |ops| && ClockHolds(start, ops) && FreshHandles(ops)
    requires ops[i].Mint? && LazyReply(l, ops, i) == MintReply(Minted(ops[i].q.handle)) && ops[j].List?
    ensures LazyReply(l, ops, j).Records?
    ensures var q := ops[i].q;
            HandleRecord(q.handle, q.principal, q.tenant, q.kind, q.now, q.now + q.ttl as real)
              in LazyReply(l, ops, j).records <==>
            && ops[j].now < q.now + q.ttl as real && ops[j].principal == q.principal
            && (ops[j].within == None || ops[j].within == Some(q.tenant))
            && !WithdrawnBetween(ops, i, j, q.handle, q.principal, q.tenant)
  {
    var rec, rs := Issued(ops[i].q), LazyAfter(l, ops, j).records;
    RecordFollowed(l, start, ops, i, j);
    WithdrawnIsRevoked(ops, i, j, rec);
    assert LastReading(start, ops, j) <= Reading(ops[j]);
    forall h | h in rs && rs[h] == rec ensures h == rec.handle { HeldKeyed(l, ops, j, h); }
    MatchingOne(rs, rec, ops[j].now, ops[j].principal, ops[j].within);
  }

  lemma MatchingOne(rs: Handles.Records, rec: HandleRecord, now: real, principal: string, within: Option<string>)
    requires forall h :: h in rs && rs[h] == rec ==> h == rec.handle
    requires rec.handle in rs ==> rs[rec.handle] == rec
    ensures rec in Matching(Live(rs, now), principal, within) <==>
            && rec.handle in rs && rec.expiresAt > now && rec.principal == principal
            && (within == None || within == Some(rec.tenant))
  {
    var live := Live(rs, now);
    if within.Some? { assert within == Some(within.value); }
    if rec in Matching(live, principal, within) {
      var h :| h in live && live[h] == rec;
    }
    if rec.handle in live { assert live[rec.handle] == rec; }
  }

  lemma {:induction false} HeldKeyed(l: Limits, ops: seq<Op>, n: nat, h: string)
    requires n <= |ops| && h in LazyAfter(l, ops, n).records
    ensures LazyAfter(l, ops, n).records[h].handle == h
    ensures exists i :: 0 <= i < n && ops[i].Mint? && LazyReply(l, ops, i) == MintReply(Minted(h))
                        && LazyAfter(l, ops, n).records[h] == Issued(ops[i].q)
    decreases n
  {
    var r, op := LazyAfter(l, ops, n - 1), ops[n - 1];
    if op.Mint? && MintOn(l, r, op.q).result == Minted(op.q.handle) && h == op.q.handle {
      RecordStarts(l, r, op.q);
    } else {
      StepKeepsOld(l, r, op, h);
      HeldKeyed(l, ops, n - 1, h);
    }
  }

  lemma StepKeepsOld(l: Limits, r: Registry, op: Op, h: string)
    requires h in LazyStep(l, r, op).registry.records
    requires !(op.Mint? && MintOn(l, r, op.q).result == Minted(op.q.handle) && h == op.q.handle)
    ensures h in r.records && LazyStep(l, r, op).registry.records[h] == r.records[h]
  {
    if op.Mint? {
      MintResults(l, r, op.q);
      StagesWithin(l, r, op.q);
    }
  }

  /** And it names nothing else. */
  lemma ListedWereMinted(l: Limits, ops: seq<Op>, j: nat, r: HandleRecord) returns (i: nat)
    requires j < |ops| && ops[j].List? && r in LazyReply(l, ops, j).records
    ensures i < j && ops[i].Mint? && LazyReply(l, ops, i) == MintReply(Minted(ops[i].q.handle))
    ensures var q := ops[i].q; r == HandleRecord(q.handle, q.principal, q.tenant, q.kind, q.now, q.now + q.ttl as real)
  {
    var rs := LazyAfter(l, ops, j).records;
    var h :| h in Live(rs, ops[j].now) && rs[h] == r;
    HeldKeyed(l, ops, j, h);
    i :| 0 <= i < j && ops[i].Mint? && LazyReply(l, ops, i) == MintReply(Minted(h)) && rs[h] == Issued(ops[i].q);
    MintNamesItsHandle(l, LazyAfter(l, ops, i), ops[i].q);
  }

  lemma MintNamesItsHandle(l: Limits, r: Registry, q: MintRequest)
    ensures MintOn(l, r, q).result.Minted? ==> MintOn(l, r, q).result.handle == q.handle
  {
  }

  /** What a mint answers, from the unexpired handles held: all of them, the
      caller's own, and those of the caller's tenant. */
  lemma MintExactlyWhen(l: Limits, r: Registry, q: MintRequest)
    ensures var live := set h | h in r.records && r.records[h].expiresAt > q.now;
            var mine := |set h | h in live && r.records[h].principal == q.principal && r.records[h].tenant == q.tenant|;
            var tenants := |set h | h in live && r.records[h].tenant == q.tenant|;
            MintOn(l, r, q).result ==
            if q.principal == "" || q.tenant == "" then MintFailed(NoCaller)
            else if q.ttl <= 0 || q.ttl > l.maxTtl then MintFailed(BadTtl)
            else if |live| >= l.max && (mine >= 8 || |live| >= 2 * l.max) then MintFailed(RegistryFull)
            else if mine >= l.perPrincipal then MintFailed(PrincipalLimit)
            else if tenants >= l.perTenant && (mine >= 8 || tenants >= 2 * l.perTenant) then MintFailed(TenantLimit)
            else Minted(q.handle)
  {
    MintSimulated(l, r, q);
    LiveInSets(r.records, q);
  }

  lemma LiveInSets(rs: Handles.Records, q: MintRequest)
    ensures var live := set h | h in rs && rs[h].expiresAt > q.now;
            && |Live(rs, q.now)| == |live|
            && HeldIn(Live(rs, q.now), Caller(q))
               == |set h | h in live && rs[h].principal == q.principal && rs[h].tenant == q.tenant|
            && TenantTotal(Live(rs, q.now), q.tenant) == |set h | h in live && rs[h].tenant == q.tenant|
  {
    var live := set h | h in rs && rs[h].expiresAt > q.now;
    var kept := Live(rs, q.now);
    assert kept.Keys == live && |kept| == |kept.Keys|;
    assert IdsOf(Owners(kept), Caller(q))
           == set h | h in live && rs[h].principal == q.principal && rs[h].tenant == q.tenant;
    var there := InTenant(Owners(kept), q.tenant);
    assert there.Keys == set h | h in live && rs[h].tenant == q.tenant;
    assert |there| == |there.Keys|;
  }

  /** The sweep is due at most a second after the last one. */
  lemma {:induction false} SweepDue(l: Limits, start: real, ops: seq<Op>, n: nat)
    requires n <= |ops| && ClockHolds(start, ops) && start >= 0.0
    ensures LazyAfter(l, ops, n).nextPurge <= LastReading(start, ops, n) + 1.0
    ensures forall h :: h in LazyAfter(l, ops, n).records ==>
              LazyAfter(l, ops, n).records[h].expiresAt > LazyAfter(l, ops, n).nextPurge - 1.0
    decreases n
  {
    if n > 0 {
      SweepDue(l, start, ops, n - 1);
      StepSweepDue(l, LazyAfter(l, ops, n - 1), LastReading(start, ops, n - 1), ops[n - 1]);
    }
  }

  ghost predicate Due(r: Registry, t: real) {
    r.nextPurge <= t + 1.0 && forall h :: h in r.records ==> r.records[h].expiresAt > r.nextPurge - 1.0
  }

  lemma SweptDue(r: Registry, t: real, now: real, force: bool)
    requires Due(r, t) && t <= now
    ensures Due(Swept(r, now, force), now)
  {
  }

  lemma StepSweepDue(l: Limits, r: Registry, t: real, op: Op)
    requires Due(r, t) && (Clocked(op) ==> t <= Reading(op))
    ensures Due(LazyStep(l, r, op).registry, if Clocked(op) then Reading(op) else t)
  {
    if op.Mint? {
      MintDue(l, r, t, op.q);
    } else if op.List? {
      SweptDue(r, t, op.now, true);
    }
  }

  lemma MintDue(l: Limits, r: Registry, t: real, q: MintRequest)
    requires Due(r, t) && t <= q.now
    ensures Due(MintOn(l, r, q).after, q.now)
  {
    if q.principal != "" && q.tenant != "" && 0 < q.ttl <= l.maxTtl {
      var r1 := SweptForTotal(l, r, q);
      var r2 := SweptForPrincipal(l, r1, q);
      var r3 := SweptForTenant(l, r2, q);
      SweptDue(r, t, q.now, false);
      SweptIfDue(Swept(r, q.now, false), q.now, |Swept(r, q.now, false).records| >= l.max);
      SweptIfDue(r1, q.now, HeldIn(r1.records, Caller(q)) >= l.perPrincipal);
      SweptIfDue(r2, q.now, TenantTotal(r2.records, q.tenant) >= l.perTenant);
      MintedDue(r3, q);
    }
  }

  lemma SweptIfDue(r: Registry, now: real, full: bool)
    requires Due(r, now)
    ensures Due(SweptIf(r, now, full), now)
  {
    SweptDue(r, now, now, true);
  }

  lemma MintedDue(r: Registry, q: MintRequest)
    requires Due(r, q.now) && q.ttl > 0
    ensures Due(r.(records := r.records[q.handle := Issued(q)]), q.now)
  {
  }

  /** After any well-formed mint, whatever is still held expired less than a second
      before, if at all. */
  lemma LingersUnderASecond(l: Limits, start: real, ops: seq<Op>, i: nat, h: string)
    requires i < |ops| && ClockHolds(start, ops) && start >= 0.0 && ops[i].Mint?
    requires var q := ops[i].q; q.principal != "" && q.tenant != "" && 0 < q.ttl <= l.maxTtl
    requires h in LazyAfter(l, ops, i + 1).records
    ensures LazyAfter(l, ops, i + 1).records[h].expiresAt > ops[i].q.now - 1.0
  {
    SweepDue(l, start, ops, i + 1);
    MintSweeps(l, LazyAfter(l, ops, i), ops[i].q);
  }

  /** Before the next sweep is due, and while the counts are below the limits, a mint
      drops nothing, expired or not. */
  lemma MintAdds(l: Limits, r: Registry, q: MintRequest)
    requires q.principal != "" && q.tenant != "" && 0 < q.ttl <= l.maxTtl && q.now < r.nextPurge
    requires |r.records| < l.max && HeldIn(r.records, Caller(q)) < l.perPrincipal
    requires TenantTotal(r.records, q.tenant) < l.perTenant
    ensures MintOn(l, r, q).after.records ==
            r.records[q.handle := HandleRecord(q.handle, q.principal, q.tenant, q.kind, q.now, q.now + q.ttl as real)]
  {
  }

  lemma MintSweeps(l: Limits, r: Registry, q: MintRequest)
    requires q.principal != "" && q.tenant != "" && 0 < q.ttl <= l.maxTtl
    ensures MintOn(l, r, q).after.nextPurge > q.now
  {
  }

  /** Revoking a principal removes exactly its handles: every other handle
      answers every caller as before, and none of its own answers anyone. */
  lemma RevokePrincipalExactly(r: Registry, p: string, w: Option<string>, h: string,
                               caller: string, tenant: string, kind: Option<string>, now: real)
    ensures var after := r.(records := WithoutMatching(r.records, p, w));
            var gone := h in r.records && r.records[h].principal == p
                        && (w == None || w == Some(r.records[h].tenant));
            ResolveOn(after, h, caller, tenant, kind, now).record
            == if gone then None else ResolveOn(r, h, caller, tenant, kind, now).record
  {
    if w.Some? { assert w == Some(w.value); }
  }
}
