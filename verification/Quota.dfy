/** The quota rule shared by the replay cache and the handle registry: soft
    caps with a 2x ceiling and a per-owner floor, kept with count tables. */
module Quota {
  import opened Common

  /** An owner holding fewer entries than this is admitted past a soft cap. */
  const OWNER_FLOOR := 8

  datatype Owner = Owner(principal: string, tenant: string)

  /** Who holds each live id. */
  type Holdings = map<string, Owner>

  // ----- count tables -----

  function Get<K>(counts: map<K, int>, key: K, default: int): int {
    if key in counts then counts[key] else default
  }

  function Increment<K>(counts: map<K, int>, key: K): map<K, int> {
    counts[key := Get(counts, key, 0) + 1]
  }

  function Decrement<K>(counts: map<K, int>, key: K): map<K, int> {
    var left := Get(counts, key, 1) - 1;
    if left > 0 then counts[key := left] else counts - {key}
  }

  ghost function IdsOf(held: Holdings, o: Owner): set<string> {
    set j | j in held && held[j] == o
  }

  ghost function Held(held: Holdings, o: Owner): nat { |IdsOf(held, o)| }

  ghost function InTenant(held: Holdings, t: string): Holdings {
    map j | j in held && held[j].tenant == t :: held[j]
  }

  ghost function OwnersOf(held: Holdings): set<Owner> { set j | j in held :: held[j] }

  ghost function TenantsOf(held: Holdings): set<string> { set j | j in held :: held[j].tenant }

  /** The table of true counts: one positive entry for each owner of something. */
  ghost function OwnerCounts(held: Holdings): map<Owner, int> {
    map o | o in OwnersOf(held) :: Held(held, o)
  }

  ghost function TenantCounts(held: Holdings): map<string, int> {
    map t | t in TenantsOf(held) :: |InTenant(held, t)|
  }

  /** An owner has an entry exactly when it holds something, and looking one up
      gives the number of ids it holds. */
  lemma OwnerCountsExact(held: Holdings, o: Owner)
    ensures o in OwnerCounts(held) <==> Held(held, o) > 0
    ensures Get(OwnerCounts(held), o, 0) == Held(held, o)
  {
    if o in OwnersOf(held) {
      var j :| j in held && held[j] == o;
      assert j in IdsOf(held, o);
    } else {
      assert IdsOf(held, o) == {};
    }
  }

  lemma TenantCountsExact(held: Holdings, t: string)
    ensures t in TenantCounts(held) <==> |InTenant(held, t)| > 0
    ensures Get(TenantCounts(held), t, 0) == |InTenant(held, t)|
  {
    if t in TenantsOf(held) {
      var j :| j in held && held[j].tenant == t;
      assert j in InTenant(held, t);
    } else {
      assert InTenant(held, t) == map[];
    }
  }

  lemma HeldAfterAdd(held: Holdings, id: string, who: Owner, o: Owner)
    requires id !in held
    ensures Held(held[id := who], o) == Held(held, o) + if o == who then 1 else 0
  {
    if o == who {
      assert IdsOf(held[id := who], o) == IdsOf(held, o) + {id};
    } else {
      assert IdsOf(held[id := who], o) == IdsOf(held, o);
    }
  }

  lemma HeldAfterDrop(held: Holdings, id: string, o: Owner)
    requires id in held
    ensures Held(held, o) == Held(held - {id}, o) + if o == held[id] then 1 else 0
  {
    HeldAfterAdd(held - {id}, id, held[id], o);
    assert (held - {id})[id := held[id]] == held;
  }

  lemma TenantAfterAdd(held: Holdings, id: string, who: Owner, t: string)
    requires id !in held
    ensures InTenant(held[id := who], t) ==
            if t == who.tenant then InTenant(held, t)[id := who] else InTenant(held, t)
    ensures |InTenant(held[id := who], t)| == |InTenant(held, t)| + if t == who.tenant then 1 else 0
  {
  }

  lemma TenantAfterDrop(held: Holdings, id: string, t: string)
    requires id in held
    ensures |InTenant(held, t)| == |InTenant(held - {id}, t)| + if t == held[id].tenant then 1 else 0
  {
    TenantAfterAdd(held - {id}, id, held[id], t);
    assert (held - {id})[id := held[id]] == held;
  }

  /** A count table is the table of true counts if it has the true counts and
      no other entries. */
  lemma OwnerCountsUnique(counts: map<Owner, int>, held: Holdings)
    requires forall o :: Get(counts, o, 0) == Held(held, o)
    requires forall o :: o in counts ==> counts[o] != 0
    ensures counts == OwnerCounts(held)
  {
    forall o: Owner
      ensures o in counts <==> o in OwnerCounts(held)
      ensures o in counts ==> counts[o] == OwnerCounts(held)[o]
    {
      OwnerCountsExact(held, o);
      assert Get(counts, o, 0) == Held(held, o);
    }
  }

  lemma TenantCountsUnique(counts: map<string, int>, held: Holdings)
    requires forall t {:trigger InTenant(held, t)} {:trigger Get(counts, t, 0)} ::
               Get(counts, t, 0) == |InTenant(held, t)|
    requires forall t :: t in counts ==> counts[t] != 0
    ensures counts == TenantCounts(held)
  {
    forall t: string
      ensures t in counts <==> t in TenantCounts(held)
      ensures t in counts ==> counts[t] == TenantCounts(held)[t]
    {
      TenantCountsExact(held, t);
      assert Get(counts, t, 0) == |InTenant(held, t)|;
    }
  }

  /** Counting a new id keeps both tables exact. */
  lemma IncrementKeepsCounts(held: Holdings, id: string, who: Owner)
    requires id !in held
    ensures Increment(OwnerCounts(held), who) == OwnerCounts(held[id := who])
    ensures Increment(TenantCounts(held), who.tenant) == TenantCounts(held[id := who])
  {
    IncrementOwners(held, id, who);
    IncrementTenants(held, id, who);
  }

  lemma IncrementOwners(held: Holdings, id: string, who: Owner)
    requires id !in held
    ensures Increment(OwnerCounts(held), who) == OwnerCounts(held[id := who])
  {
    var counts := Increment(OwnerCounts(held), who);
    OwnerCountsExact(held, who);
    forall o: Owner
      ensures Get(counts, o, 0) == Held(held[id := who], o)
      ensures o in counts ==> counts[o] != 0
    {
      OwnerCountsExact(held, o);
      HeldAfterAdd(held, id, who, o);
    }
    OwnerCountsUnique(counts, held[id := who]);
  }

  lemma IncrementTenants(held: Holdings, id: string, who: Owner)
    requires id !in held
    ensures Increment(TenantCounts(held), who.tenant) == TenantCounts(held[id := who])
  {
    var counts := Increment(TenantCounts(held), who.tenant);
    TenantCountsExact(held, who.tenant);
    forall t: string
      ensures Get(counts, t, 0) == |InTenant(held[id := who], t)|
      ensures t in counts ==> counts[t] != 0
    {
      TenantCountsExact(held, t);
      TenantAfterAdd(held, id, who, t);
    }
    TenantCountsUnique(counts, held[id := who]);
  }

  /** Uncounting a dropped id keeps both tables exact. */
  lemma DecrementKeepsCounts(held: Holdings, id: string)
    requires id in held
    ensures Decrement(OwnerCounts(held), held[id]) == OwnerCounts(held - {id})
    ensures Decrement(TenantCounts(held), held[id].tenant) == TenantCounts(held - {id})
  {
    DecrementOwners(held, id);
    DecrementTenants(held, id);
  }

  lemma DecrementOwners(held: Holdings, id: string)
    requires id in held
    ensures Decrement(OwnerCounts(held), held[id]) == OwnerCounts(held - {id})
  {
    var counts := Decrement(OwnerCounts(held), held[id]);
    OwnerCountsExact(held, held[id]);
    forall o: Owner
      ensures Get(counts, o, 0) == Held(held - {id}, o)
      ensures o in counts ==> counts[o] != 0
    {
      OwnerCountsExact(held, o);
      HeldAfterDrop(held, id, o);
    }
    OwnerCountsUnique(counts, held - {id});
  }

  lemma DecrementTenants(held: Holdings, id: string)
    requires id in held
    ensures Decrement(TenantCounts(held), held[id].tenant) == TenantCounts(held - {id})
  {
    var counts := Decrement(TenantCounts(held), held[id].tenant);
    TenantCountsExact(held, held[id].tenant);
    forall t: string
      ensures Get(counts, t, 0) == |InTenant(held - {id}, t)|
      ensures t in counts ==> counts[t] != 0
    {
      TenantCountsExact(held, t);
      TenantAfterDrop(held, id, t);
    }
    TenantCountsUnique(counts, held - {id});
  }

  // ----- the floor law -----

  /** A soft cap turns away an owner at or above the floor, and everyone at
      twice the cap. */
  predicate SoftCapRefuses(used: int, cap: int, mine: int) {
    used >= cap && (mine >= OWNER_FLOOR || used >= 2 * cap)
  }

  /** How far a count stands above the floor. */
  function Over(n: nat): nat { if n > OWNER_FLOOR then n - OWNER_FLOOR else 0 }

  /** The sum over some owners of what they hold above the floor. */
  ghost function Excess(held: Holdings, owners: set<Owner>): nat {
    if owners == {} then 0
    else
      var o :| o in owners;
      Over(Held(held, o)) + Excess(held, owners - {o})
  }

  /** The sum does not depend on the order owners are taken in. */
  lemma {:induction false} ExcessPick(held: Holdings, owners: set<Owner>, o: Owner)
    requires o in owners
    ensures Excess(held, owners) == Over(Held(held, o)) + Excess(held, owners - {o})
    decreases owners
  {
    var p :| p in owners && Excess(held, owners) == Over(Held(held, p)) + Excess(held, owners - {p});
    if p != o {
      ExcessPick(held, owners - {p}, o);
      ExcessPick(held, owners - {o}, p);
      assert owners - {p} - {o} == owners - {o} - {p};
    }
  }

  lemma {:induction false} ExcessMonotone(small: Holdings, big: Holdings, owners: set<Owner>, more: set<Owner>)
    requires owners <= more
    requires forall o {:trigger Held(small, o)} :: o in owners ==> Over(Held(small, o)) <= Over(Held(big, o))
    ensures Excess(small, owners) <= Excess(big, more)
    decreases more
  {
    if more != {} {
      var o :| o in more;
      ExcessPick(big, more, o);
      if o in owners {
        ExcessPick(small, owners, o);
        assert Over(Held(small, o)) <= Over(Held(big, o));
      }
      ExcessMonotone(small, big, owners - {o}, more - {o});
      assert o !in owners ==> owners - {o} == owners;
    }
  }

  ghost function IdsOfAny(held: Holdings, owners: set<Owner>): set<string> {
    set j | j in held && held[j] in owners
  }

  lemma {:induction false} ExcessAtMostHeld(held: Holdings, owners: set<Owner>)
    ensures Excess(held, owners) <= |IdsOfAny(held, owners)|
    decreases owners
  {
    if owners != {} {
      var o :| o in owners;
      ExcessPick(held, owners, o);
      ExcessAtMostHeld(held, owners - {o});
      assert IdsOfAny(held, owners) == IdsOfAny(held, owners - {o}) + IdsOf(held, o);
    }
  }

  /** Nothing is held, or what owners hold above the floor sums to at most the
      cap and the total is at most twice the cap. */
  ghost predicate FloorLaw(held: Holdings, cap: int) {
    held == map[] || (Excess(held, OwnersOf(held)) <= cap && |held| <= 2 * cap)
  }

  lemma AdmitKeepsFloorLaw(held: Holdings, cap: int, id: string, who: Owner)
    requires FloorLaw(held, cap) && id !in held
    requires !SoftCapRefuses(|held|, cap, Held(held, who))
    ensures FloorLaw(held[id := who], cap)
  {
    var after := held[id := who];
    assert |after| == |held| + 1;
    if |held| < cap {
      ExcessAtMostHeld(after, OwnersOf(after));
      assert IdsOfAny(after, OwnersOf(after)) == after.Keys;
      assert |after.Keys| == |after|;
    } else {
      HeldAfterAdd(held, id, who, who);
      AdmitBelowFloor(held, id, who);
      assert held != map[];
    }
  }

  lemma OwnersAfterAdd(held: Holdings, id: string, who: Owner)
    requires id !in held
    ensures OwnersOf(held[id := who]) == OwnersOf(held) + {who}
  {
    var after := held[id := who];
    assert after[id] == who;
    forall o | o in OwnersOf(held) ensures o in OwnersOf(after) {
      var j :| j in held && held[j] == o;
      assert after[j] == o;
    }
  }

  lemma AdmitBelowFloor(held: Holdings, id: string, who: Owner)
    requires id !in held && Held(held, who) < OWNER_FLOOR
    ensures Excess(held[id := who], OwnersOf(held[id := who])) <= Excess(held, OwnersOf(held))
  {
    var after := held[id := who];
    OwnersAfterAdd(held, id, who);
    ExcessPick(after, OwnersOf(after), who);
    HeldAfterAdd(held, id, who, who);
    forall o | o in OwnersOf(after) - {who} ensures Over(Held(after, o)) <= Over(Held(held, o)) {
      HeldAfterAdd(held, id, who, o);
    }
    ExcessMonotone(after, held, OwnersOf(after) - {who}, OwnersOf(held));
  }

  /** Dropping ids keeps the law. */
  lemma DropKeepsFloorLaw(before: Holdings, after: Holdings, cap: int)
    requires FloorLaw(before, cap)
    requires forall j :: j in after ==> j in before && after[j] == before[j]
    ensures FloorLaw(after, cap)
  {
    if after != map[] {
      forall o: Owner ensures Over(Held(after, o)) <= Over(Held(before, o)) {
        assert IdsOf(after, o) <= IdsOf(before, o);
        SubsetSize(IdsOf(after, o), IdsOf(before, o));
      }
      assert OwnersOf(after) <= OwnersOf(before);
      ExcessMonotone(after, before, OwnersOf(after), OwnersOf(before));
      SubsetSize(after.Keys, before.Keys);
      assert |after| == |after.Keys| && |before| == |before.Keys|;
    }
  }

  /** The law for the whole, and separately inside every tenant. */
  ghost predicate Fair(held: Holdings, cap: int, tenantCap: int) {
    && FloorLaw(held, cap)
    && forall t {:trigger InTenant(held, t)} :: FloorLaw(InTenant(held, t), tenantCap)
  }

  lemma TenantHeld(held: Holdings, o: Owner)
    ensures Held(InTenant(held, o.tenant), o) == Held(held, o)
  {
    assert IdsOf(InTenant(held, o.tenant), o) == IdsOf(held, o);
  }

  lemma AdmitKeepsFair(held: Holdings, cap: int, tenantCap: int, id: string, who: Owner)
    requires Fair(held, cap, tenantCap) && id !in held
    requires !SoftCapRefuses(|held|, cap, Held(held, who))
    requires !SoftCapRefuses(|InTenant(held, who.tenant)|, tenantCap, Held(held, who))
    ensures Fair(held[id := who], cap, tenantCap)
  {
    AdmitKeepsFloorLaw(held, cap, id, who);
    TenantHeld(held, who);
    AdmitKeepsFloorLaw(InTenant(held, who.tenant), tenantCap, id, who);
    var after := held[id := who];
    forall t ensures FloorLaw(InTenant(after, t), tenantCap) {
      TenantAfterAdd(held, id, who, t);
    }
  }

  lemma DropKeepsFair(before: Holdings, after: Holdings, cap: int, tenantCap: int)
    requires Fair(before, cap, tenantCap)
    requires forall j :: j in after ==> j in before && after[j] == before[j]
    ensures Fair(after, cap, tenantCap)
  {
    DropKeepsFloorLaw(before, after, cap);
    forall t ensures FloorLaw(InTenant(after, t), tenantCap) {
      DropKeepsFloorLaw(InTenant(before, t), InTenant(after, t), tenantCap);
    }
  }
}
