/** Opening sealed request state: the checks on the unsealed claims and the
    single-use replay cache with its expiry heap, count tables and caps. */
module ReplayCache {
  import opened Common
  import opened Quota
  import H = HeapQueue

  const MAX_STATE_CHARS := 65536
  const MAX_SPENT_ENTRIES := 1_000_000
  const MAX_SPENT_PER_OWNER := 10_000
  const MAX_SPENT_PER_TENANT := MAX_SPENT_ENTRIES / 4

  /** What authenticated decryption yields; a field of the wrong JSON type is None. */
  datatype Claims =
    | NotAnObject
    | Claims(principal: Option<string>, tenant: Option<string>, request: Option<string>,
             exp: Option<real>, jti: Option<string>, payload: Option<string>)

  /** Authenticated decryption of a token, None on any failure. */
  type Unseal = string -> Option<Claims>

  datatype Presented = Presented(token: string, principal: string, request: string, tenant: string)

  /** An unexpired redemption on record: by whom, and until when. */
  datatype Spent = Spent(owner: Owner, exp: real)

  type Cache = map<string, Spent>

  function Holders(c: Cache): Holdings { map j | j in c :: c[j].owner }

  /** Everything that is checked before the replay cache is consulted. */
  predicate Authentic(unseal: Unseal, q: Presented, now: real) {
    && |q.token| <= MAX_STATE_CHARS
    && unseal(q.token).Some?
    && var claims := unseal(q.token).value;
    && claims.Claims?
    && claims.exp.Some? && claims.exp.value > now
    && claims.principal == Some(q.principal)
    && claims.tenant == Some(q.tenant)
    && claims.request == Some(q.request)
    && claims.payload.Some?
  }

  function Jti(unseal: Unseal, token: string): Option<string> {
    if unseal(token).Some? && unseal(token).value.Claims? then unseal(token).value.jti else None
  }

  function Expiry(unseal: Unseal, token: string): Option<real> {
    if unseal(token).Some? && unseal(token).value.Claims? then unseal(token).value.exp else None
  }

  /** The entries whose own expiry lies after now. */
  function Live(c: Cache, now: real): Cache { map j | j in c && c[j].exp > now :: c[j] }

  /** The admission rule over the true counts. */
  ghost predicate Refused(held: Holdings, who: Owner) {
    var mine := Held(held, who);
    || mine >= MAX_SPENT_PER_OWNER
    || SoftCapRefuses(|InTenant(held, who.tenant)|, MAX_SPENT_PER_TENANT, mine)
    || SoftCapRefuses(|held|, MAX_SPENT_ENTRIES, mine)
  }

  datatype Opened = Opened(cache: Cache, payload: Option<string>)

  /** What one open call does to the redemptions on record, and what it answers. */
  ghost function OpenOn(unseal: Unseal, singleUse: bool, c: Cache, q: Presented, now: real): Opened {
    if !Authentic(unseal, q, now) then Opened(c, None)
    else
      var claims := unseal(q.token).value;
      if !singleUse then Opened(c, claims.payload)
      else if claims.jti.None? || claims.jti.value == "" then Opened(c, None)
      else
        var live, who := Live(c, now), Owner(q.principal, q.tenant);
        if claims.jti.value in live || Refused(Holders(live), who) then Opened(live, None)
        else Opened(live[claims.jti.value := Spent(who, claims.exp.value)], claims.payload)
  }

  // ----- the expiry heap -----

  datatype Item = Item(exp: real, jti: string)

  predicate TextLess(s: string, t: string) {
    if t == "" then false
    else if s == "" then true
    else if s[0] != t[0] then s[0] < t[0]
    else TextLess(s[1..], t[1..])
  }

  /** Tuple order: by expiry, ties by id. */
  predicate ItemLeq(x: Item, y: Item) {
    x.exp < y.exp || (x.exp == y.exp && !TextLess(y.jti, x.jti))
  }

  lemma {:induction false} TextOrderTotal(s: string, t: string)
    ensures !TextLess(s, t) || !TextLess(t, s)
  {
    if s != "" && t != "" { TextOrderTotal(s[1..], t[1..]); }
  }

  lemma {:induction false} TextOrderTransitive(s: string, t: string, u: string)
    requires !TextLess(t, s) && !TextLess(u, t)
    ensures !TextLess(u, s)
  {
    if s != "" && t != "" && u != "" && s[0] == t[0] == u[0] {
      TextOrderTransitive(s[1..], t[1..], u[1..]);
    }
  }

  lemma ItemOrder()
    ensures H.TotalOrder(ItemLeq)
  {
    forall x, y ensures ItemLeq(x, y) || ItemLeq(y, x) {
      TextOrderTotal(x.jti, y.jti);
    }
    forall x, y, z | ItemLeq(x, y) && ItemLeq(y, z) ensures ItemLeq(x, z) {
      if x.exp == y.exp == z.exp {
        TextOrderTransitive(x.jti, y.jti, z.jti);
      }
    }
  }

  /** The heap holds exactly the recorded ids, each once and with its expiry. */
  ghost predicate HeapRecords(heap: seq<Item>, c: Cache) {
    forall x: Item {:trigger multiset(heap)[x]} ::
      multiset(heap)[x] == if x.jti in c && c[x.jti].exp == x.exp then 1 else 0
  }

  lemma PoppedIsRecorded(heap: seq<Item>, c: Cache)
    requires HeapRecords(heap, c) && |heap| > 0
    ensures heap[0].jti in c && c[heap[0].jti].exp == heap[0].exp
  {
    assert heap[0] in multiset(heap);
    assert multiset(heap)[heap[0]] > 0;
  }

  lemma PopRecords(heap: seq<Item>, rest: seq<Item>, c: Cache)
    requires HeapRecords(heap, c) && |heap| > 0
    requires multiset(heap) == multiset(rest) + multiset{heap[0]}
    ensures heap[0].jti in c
    ensures HeapRecords(rest, c - {heap[0].jti})
  {
    PoppedIsRecorded(heap, c);
    forall x: Item
      ensures multiset(rest)[x] ==
              if x.jti in c - {heap[0].jti} && c[x.jti].exp == x.exp then 1 else 0
    {
      assert multiset(heap)[x] == multiset(rest)[x] + if x == heap[0] then 1 else 0;
    }
  }

  lemma PushRecords(heap: seq<Item>, more: seq<Item>, c: Cache, jti: string, s: Spent)
    requires HeapRecords(heap, c) && jti !in c
    requires multiset(more) == multiset(heap) + multiset{Item(s.exp, jti)}
    ensures HeapRecords(more, c[jti := s])
  {
    forall x: Item
      ensures multiset(more)[x] ==
              if x.jti in c[jti := s] && c[jti := s][x.jti].exp == x.exp then 1 else 0
    {
      assert multiset(more)[x] == multiset(heap)[x] + if x == Item(s.exp, jti) then 1 else 0;
    }
  }

  /** Once the heap's root is unexpired, so is every recorded id. */
  lemma RootDecides(heap: seq<Item>, c: Cache, now: real, jti: string)
    requires H.Heap(heap, ItemLeq) && HeapRecords(heap, c)
    requires heap == [] || heap[0].exp > now
    requires jti in c
    ensures c[jti].exp > now
  {
    var x := Item(c[jti].exp, jti);
    assert multiset(heap)[x] == 1;
    assert x in heap;
    var i :| 0 <= i < |heap| && heap[i] == x;
    ItemOrder();
    H.RootLeast(heap, ItemLeq, i);
  }

  /** The sealer's four structures agree with the redemptions on record. */
  ghost predicate InStep(spent: map<string, Owner>, heap: seq<Item>, owners: map<Owner, int>,
                         tenants: map<string, int>, c: Cache) {
    && spent == Holders(c)
    && H.Heap(heap, ItemLeq) && HeapRecords(heap, c)
    && owners == OwnerCounts(spent)
    && tenants == TenantCounts(spent)
  }

  lemma EmptyInStep()
    ensures InStep(map[], [], map[], map[], map[])
  {
    assert OwnerCounts(map[]) == map[] && TenantCounts(map[]) == map[];
  }

  lemma PopInStep(spent: map<string, Owner>, heap: seq<Item>, owners: map<Owner, int>,
                  tenants: map<string, int>, c: Cache)
    requires InStep(spent, heap, owners, tenants, c) && heap != []
    ensures heap[0].jti in c && heap[0].jti in spent && c[heap[0].jti].exp == heap[0].exp
    ensures |H.Pop(heap, ItemLeq)| < |heap|
    ensures InStep(spent - {heap[0].jti}, H.Pop(heap, ItemLeq),
                   Decrement(owners, spent[heap[0].jti]),
                   Decrement(tenants, spent[heap[0].jti].tenant), c - {heap[0].jti})
  {
    ItemOrder();
    H.PopHeap(heap, ItemLeq);
    PoppedIsRecorded(heap, c);
    PopRecords(heap, H.Pop(heap, ItemLeq), c);
    assert |multiset(heap)| == |multiset(H.Pop(heap, ItemLeq))| + 1;
    DecrementKeepsCounts(spent, heap[0].jti);
  }

  lemma PushInStep(spent: map<string, Owner>, heap: seq<Item>, owners: map<Owner, int>,
                   tenants: map<string, int>, c: Cache, jti: string, s: Spent)
    requires InStep(spent, heap, owners, tenants, c) && jti !in c
    ensures InStep(spent[jti := s.owner], H.Push(heap, ItemLeq, Item(s.exp, jti)),
                   Increment(owners, s.owner), Increment(tenants, s.owner.tenant), c[jti := s])
  {
    ItemOrder();
    H.PushHeap(heap, ItemLeq, Item(s.exp, jti));
    PushRecords(heap, H.Push(heap, ItemLeq, Item(s.exp, jti)), c, jti, s);
    IncrementKeepsCounts(spent, jti, s.owner);
  }

  class RequestStateSealer {
    const unseal: Unseal
    const singleUse: bool
    var spent: map<string, Owner>
    var spentHeap: seq<Item>
    var spentPerOwner: map<Owner, int>
    var spentPerTenant: map<string, int>
    /** The redemptions on record, each with the expiry its heap item carries. */
    ghost var cache: Cache

    constructor (unseal: Unseal, singleUse: bool)
      ensures Valid() && cache == map[]
      ensures this.unseal == unseal && this.singleUse == singleUse
    {
      this.unseal, this.singleUse := unseal, singleUse;
      spent, spentHeap, spentPerOwner, spentPerTenant := map[], [], map[], map[];
      cache := map[];
      EmptyInStep();
    }

    ghost predicate Valid()
      reads this
    {
      InStep(spent, spentHeap, spentPerOwner, spentPerTenant, cache)
    }

    /** One turn of the purge loop. */
    method PopSpent()
      requires Valid() && spentHeap != []
      modifies this
      ensures Valid()
      ensures |spentHeap| < |old(spentHeap)|
      ensures cache == old(cache) - {old(spentHeap)[0].jti}
    {
      PopInStep(spent, spentHeap, spentPerOwner, spentPerTenant, cache);
      var jti := spentHeap[0].jti;
      spentHeap := H.Pop(spentHeap, ItemLeq);
      if jti in spent {
        var o := spent[jti];
        spent := spent - {jti};
        spentPerOwner := Decrement(spentPerOwner, o);
        spentPerTenant := Decrement(spentPerTenant, o.tenant);
      }
      cache := cache - {jti};
    }

    method PurgeSpent(now: real)
      requires Valid()
      modifies this
      ensures Valid() && cache == Live(old(cache), now)
    {
      while spentHeap != [] && spentHeap[0].exp <= now
        invariant Valid()
        invariant forall j :: j in cache ==> j in old(cache) && cache[j] == old(cache)[j]
        invariant forall j :: j in old(cache) && j !in cache ==> old(cache)[j].exp <= now
        decreases |spentHeap|
      {
        PoppedIsRecorded(spentHeap, cache);
        PopSpent();
      }
      forall j | j in cache ensures cache[j].exp > now {
        RootDecides(spentHeap, cache, now, j);
      }
    }

    /** The counts the tables give are the true ones. */
    lemma CountsAreTrue(who: Owner)
      requires Valid()
      ensures Get(spentPerOwner, who, 0) == Held(spent, who)
      ensures Get(spentPerTenant, who.tenant, 0) == |InTenant(spent, who.tenant)|
    {
      OwnerCountsExact(spent, who);
      TenantCountsExact(spent, who.tenant);
    }

    method Record(jti: string, owner: Owner, exp: real)
      requires Valid() && jti !in cache
      modifies this
      ensures Valid() && cache == old(cache)[jti := Spent(owner, exp)]
    {
      PushInStep(spent, spentHeap, spentPerOwner, spentPerTenant, cache, jti, Spent(owner, exp));
      spent := spent[jti := owner];
      spentPerOwner := Increment(spentPerOwner, owner);
      spentPerTenant := Increment(spentPerTenant, owner.tenant);
      spentHeap := H.Push(spentHeap, ItemLeq, Item(exp, jti));
      cache := cache[jti := Spent(owner, exp)];
    }

    method Open(q: Presented, now: real) returns (payload: Option<string>)
      requires Valid()
      modifies this
      ensures Valid()
      ensures Opened(cache, payload) == OpenOn(unseal, singleUse, old(cache), q, now)
    {
      if !Authentic(unseal, q, now) {
        return None;
      }
      var claims := unseal(q.token).value;
      if singleUse {
        if claims.jti.None? || claims.jti.value == "" {
          return None;
        }
        var jti, owner := claims.jti.value, Owner(q.principal, q.tenant);
        PurgeSpent(now);
        if jti in spent {
          return None;
        }
        var mine := Get(spentPerOwner, owner, 0);
        var total := |spent|;
        var inTenant := Get(spentPerTenant, q.tenant, 0);
        CountsAreTrue(owner);
        if || mine >= MAX_SPENT_PER_OWNER
           || (inTenant >= MAX_SPENT_PER_TENANT
               && (mine >= OWNER_FLOOR || inTenant >= 2 * MAX_SPENT_PER_TENANT))
           || (total >= MAX_SPENT_ENTRIES
               && (mine >= OWNER_FLOOR || total >= 2 * MAX_SPENT_ENTRIES))
        {
          return None;
        }
        Record(jti, owner, claims.exp.value);
      }
      payload := claims.payload;
    }
  }
}
