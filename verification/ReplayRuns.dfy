/** Whole runs of open calls, in the order the lock serialises them: single
    use, the exact way single use can fail, and the floor law. */
module ReplayRuns {
  import opened Common
  import opened Quota
  import opened ReplayCache

  /** One open call, with the clock reading it took. */
  datatype Call = Call(q: Presented, now: real)

  ghost function CacheAfter(unseal: Unseal, calls: seq<Call>, n: nat): Cache
    requires n <= |calls|
  {
    if n == 0 then map[]
    else OpenOn(unseal, true, CacheAfter(unseal, calls, n - 1), calls[n - 1].q, calls[n - 1].now).cache
  }

  ghost function Answer(unseal: Unseal, calls: seq<Call>, i: nat): Option<string>
    requires i < |calls|
  {
    OpenOn(unseal, true, CacheAfter(unseal, calls, i), calls[i].q, calls[i].now).payload
  }

  ghost predicate Accepted(unseal: Unseal, calls: seq<Call>, i: nat)
    requires i < |calls|
  {
    Answer(unseal, calls, i).Some?
  }

  /** A call that gets as far as the replay cache, and so purges it. */
  predicate Purges(unseal: Unseal, c: Call) {
    && Authentic(unseal, c.q, c.now)
    && Jti(unseal, c.q.token).Some? && Jti(unseal, c.q.token).value != ""
  }

  // ----- one call -----

  /** A call gets as far as the cache exactly when its token is not too long and
      seals, unexpired, the principal, tenant and request it is presented with, a
      non-empty id and a payload; and what acceptance returns is that payload. */
  lemma AcceptanceBinds(unseal: Unseal, calls: seq<Call>, i: nat)
    requires i < |calls|
    ensures var q := calls[i].q;
            Purges(unseal, calls[i]) <==>
            |q.token| <= 65536 && exists exp, jti, payload {:trigger Seals(unseal, q, exp, jti, payload)} ::
              Seals(unseal, q, exp, jti, payload) && exp > calls[i].now && jti != ""
    ensures forall exp, jti, payload {:trigger Seals(unseal, calls[i].q, exp, jti, payload)} ::
              Seals(unseal, calls[i].q, exp, jti, payload) ==>
              && Expiry(unseal, calls[i].q.token) == Some(exp) && Jti(unseal, calls[i].q.token) == Some(jti)
              && (Accepted(unseal, calls, i) ==> Answer(unseal, calls, i) == Some(payload))
    ensures Accepted(unseal, calls, i) ==> Purges(unseal, calls[i])
  {
    if Purges(unseal, calls[i]) {
      var claims := unseal(calls[i].q.token).value;
      assert Seals(unseal, calls[i].q, claims.exp.value, claims.jti.value, claims.payload.value);
    }
  }

  /** The token holds the principal, tenant and request it is presented with, and
      this expiry, id and payload. */
  ghost predicate Seals(unseal: Unseal, q: Presented, exp: real, jti: string, payload: string) {
    unseal(q.token)
    == Some(Claims(Some(q.principal), Some(q.tenant), Some(q.request), Some(exp), Some(jti), Some(payload)))
  }

  /** A sealer whose tokens may be used again asks for the same, but for no id and
      no room, and records nothing. */
  lemma ReusableExactlyWhen(unseal: Unseal, c: Cache, q: Presented, now: real, payload: string)
    ensures OpenOn(unseal, false, c, q, now).cache == c
    ensures OpenOn(unseal, false, c, q, now).payload == Some(payload) <==>
            && |q.token| <= 65536 && unseal(q.token).Some? && unseal(q.token).value.Claims?
            && exists exp, jti {:trigger Claims(Some(q.principal), Some(q.tenant), Some(q.request), Some(exp), jti,
                                                Some(payload))} ::
                 && exp > now
                 && unseal(q.token).value
                    == Claims(Some(q.principal), Some(q.tenant), Some(q.request), Some(exp), jti, Some(payload))
  {
    if Authentic(unseal, q, now) {
      var claims := unseal(q.token).value;
      assert claims == Claims(Some(q.principal), Some(q.tenant), Some(q.request), Some(claims.exp.value), claims.jti,
                              Some(claims.payload.value));
    }
  }

  /** Purging leaves no expired entry behind. */
  lemma NothingExpiredAfterPurge(unseal: Unseal, calls: seq<Call>, i: nat, j: string)
    requires i < |calls| && Purges(unseal, calls[i]) && j in CacheAfter(unseal, calls, i + 1)
    ensures CacheAfter(unseal, calls, i + 1)[j].exp > calls[i].now
  {
  }

  /** An owner below the floor is refused only at a 2x ceiling, and always there. */
  lemma FloorGuarantee(held: Holdings, who: Owner)
    requires Held(held, who) < 8
    ensures Refused(held, who) <==> |InTenant(held, who.tenant)| >= 500_000 || |held| >= 2_000_000
  {
  }

  // ----- single use -----

  lemma StepKeepsRecord(unseal: Unseal, c: Cache, call: Call, jti: string)
    requires jti in c && (Purges(unseal, call) ==> call.now < c[jti].exp)
    ensures var after := OpenOn(unseal, true, c, call.q, call.now).cache;
            jti in after && after[jti] == c[jti]
  {
  }

  /** What accepting a call puts on record. */
  function Redemption(unseal: Unseal, c: Call): Spent
    requires Purges(unseal, c)
  {
    Spent(Owner(c.q.principal, c.q.tenant), Expiry(unseal, c.q.token).value)
  }

  lemma AcceptedIsRecorded(unseal: Unseal, calls: seq<Call>, i: nat)
    requires i < |calls| && Accepted(unseal, calls, i)
    ensures Purges(unseal, calls[i])
    ensures var jti := Jti(unseal, calls[i].q.token).value;
            && jti in CacheAfter(unseal, calls, i + 1)
            && CacheAfter(unseal, calls, i + 1)[jti] == Redemption(unseal, calls[i])
  {
  }

  /** A redeemed id stays on record, with its own owner and expiry, until some purging
      call reads the clock at or after that expiry. */
  lemma StaysOnRecord(unseal: Unseal, calls: seq<Call>, i: nat, n: nat)
    requires i < n <= |calls| && Accepted(unseal, calls, i)
    requires forall k :: i < k < n && Purges(unseal, calls[k]) ==>
               calls[k].now < Expiry(unseal, calls[i].q.token).value
    ensures Purges(unseal, calls[i])
    ensures var jti := Jti(unseal, calls[i].q.token).value;
            && jti in CacheAfter(unseal, calls, n)
            && CacheAfter(unseal, calls, n)[jti]
               == Spent(Owner(calls[i].q.principal, calls[i].q.tenant), Expiry(unseal, calls[i].q.token).value)
  {
    AcceptedIsRecorded(unseal, calls, i);
    KeptUntil(unseal, calls, i, n);
  }

  ghost predicate Kept(unseal: Unseal, calls: seq<Call>, i: nat, n: nat)
    requires i < |calls| && n <= |calls| && Purges(unseal, calls[i])
  {
    var jti := Jti(unseal, calls[i].q.token).value;
    jti in CacheAfter(unseal, calls, n) && CacheAfter(unseal, calls, n)[jti] == Redemption(unseal, calls[i])
  }

  lemma KeptLonger(unseal: Unseal, calls: seq<Call>, i: nat, n: nat)
    requires i < |calls| && n < |calls| && Purges(unseal, calls[i]) && Kept(unseal, calls, i, n)
    requires Purges(unseal, calls[n]) ==> calls[n].now < Expiry(unseal, calls[i].q.token).value
    ensures Kept(unseal, calls, i, n + 1)
  {
    StepKeepsRecord(unseal, CacheAfter(unseal, calls, n), calls[n], Jti(unseal, calls[i].q.token).value);
  }

  lemma {:induction false} KeptUntil(unseal: Unseal, calls: seq<Call>, i: nat, n: nat)
    requires i < n <= |calls| && Purges(unseal, calls[i]) && Kept(unseal, calls, i, i + 1)
    requires !PurgedBetween(unseal, calls, i, n)
    ensures Kept(unseal, calls, i, n)
    decreases n
  {
    if n > i + 1 {
      NotPurgedAt(unseal, calls, i, n);
      KeptUntil(unseal, calls, i, n - 1);
      KeptLonger(unseal, calls, i, n - 1);
    }
  }

  lemma NotPurgedAt(unseal: Unseal, calls: seq<Call>, i: nat, n: nat)
    requires i + 1 < n <= |calls| && Purges(unseal, calls[i]) && !PurgedBetween(unseal, calls, i, n)
    ensures !PurgedBetween(unseal, calls, i, n - 1)
    ensures Purges(unseal, calls[n - 1]) ==> calls[n - 1].now < Expiry(unseal, calls[i].q.token).value
  {
  }

  /** The only way to a second acceptance, whatever the clock does: a call in
      between purged at or after the seal's expiry, and the second acceptance
      read the clock before it. */
  lemma SecondAcceptanceNeedsClockRegression(unseal: Unseal, calls: seq<Call>, i: nat, j: nat)
    requires i < j < |calls| && Accepted(unseal, calls, i) && Accepted(unseal, calls, j)
    requires calls[i].q.token == calls[j].q.token
    ensures exists k :: i < k < j && Purges(unseal, calls[k])
              && calls[k].now >= Expiry(unseal, calls[i].q.token).value > calls[j].now
  {
    var exp := Expiry(unseal, calls[i].q.token).value;
    AcceptanceBinds(unseal, calls, j);
    AcceptedIsRecorded(unseal, calls, j);
    if forall k :: i < k < j && Purges(unseal, calls[k]) ==> calls[k].now < exp {
      StaysOnRecord(unseal, calls, i, j);
      assert false;
    }
  }

  ghost predicate InClockOrder(calls: seq<Call>) {
    forall a, b :: 0 <= a < b < |calls| ==> calls[a].now <= calls[b].now
  }

  /** With readings that never decrease in lock order, no token is accepted twice. */
  lemma SingleUse(unseal: Unseal, calls: seq<Call>, i: nat, j: nat)
    requires InClockOrder(calls)
    requires i < j < |calls| && Accepted(unseal, calls, i) && Accepted(unseal, calls, j)
    ensures calls[i].q.token != calls[j].q.token
  {
    if calls[i].q.token == calls[j].q.token {
      SecondAcceptanceNeedsClockRegression(unseal, calls, i, j);
    }
  }

  // ----- exactly when a call is accepted -----

  /** Call i redeemed this id, and no purge before call n read the clock at or
      after its expiry. */
  ghost predicate RedeemedBy(unseal: Unseal, calls: seq<Call>, i: nat, n: nat, jti: string)
    requires i < |calls| && n <= |calls|
  {
    && i < n && Accepted(unseal, calls, i) && Jti(unseal, calls[i].q.token) == Some(jti)
    && !PurgedBetween(unseal, calls, i, n)
  }

  /** Some call between i and n purged at or after the expiry of i's token. */
  ghost predicate PurgedBetween(unseal: Unseal, calls: seq<Call>, i: nat, n: nat)
    requires i < |calls| && n <= |calls| && Expiry(unseal, calls[i].q.token).Some?
  {
    exists k :: i < k < n && Purges(unseal, calls[k]) && calls[k].now >= Expiry(unseal, calls[i].q.token).value
  }

  ghost predicate OnRecord(unseal: Unseal, calls: seq<Call>, n: nat, jti: string)
    requires n <= |calls|
  {
    exists i :: 0 <= i < n && RedeemedBy(unseal, calls, i, n, jti)
  }

  ghost predicate Redeems(unseal: Unseal, calls: seq<Call>, i: nat, jti: string)
    requires i < |calls|
  {
    Accepted(unseal, calls, i) && Jti(unseal, calls[i].q.token) == Some(jti)
  }

  /** What one call does to one id. */
  lemma StepOnId(unseal: Unseal, calls: seq<Call>, n: nat, jti: string)
    requires n < |calls| && jti in CacheAfter(unseal, calls, n + 1)
    ensures var c := CacheAfter(unseal, calls, n);
            || Redeems(unseal, calls, n, jti)
            || (jti in c && (Purges(unseal, calls[n]) ==> calls[n].now < c[jti].exp))
  {
  }

  /** Every id on record was redeemed by some call and not purged since. */
  lemma {:induction false} Redeemer(unseal: Unseal, calls: seq<Call>, n: nat, jti: string) returns (i: nat)
    requires n <= |calls| && jti in CacheAfter(unseal, calls, n)
    ensures i < n && RedeemedBy(unseal, calls, i, n, jti)
    decreases n
  {
    StepOnId(unseal, calls, n - 1, jti);
    if Redeems(unseal, calls, n - 1, jti) {
      i := n - 1;
      RedeemedNow(unseal, calls, i, jti);
    } else {
      i := Redeemer(unseal, calls, n - 1, jti);
      RedeemedThrough(unseal, calls, i, n - 1, jti);
    }
  }

  lemma RedeemedThrough(unseal: Unseal, calls: seq<Call>, i: nat, n: nat, jti: string)
    requires i < n < |calls| && RedeemedBy(unseal, calls, i, n, jti) && jti in CacheAfter(unseal, calls, n)
    requires Purges(unseal, calls[n]) ==> calls[n].now < CacheAfter(unseal, calls, n)[jti].exp
    ensures RedeemedBy(unseal, calls, i, n + 1, jti)
  {
    StandingRedemption(unseal, calls, i, n, jti);
    RedeemedStill(unseal, calls, i, n, jti);
  }

  lemma RedeemedNow(unseal: Unseal, calls: seq<Call>, i: nat, jti: string)
    requires i < |calls| && Redeems(unseal, calls, i, jti)
    ensures RedeemedBy(unseal, calls, i, i + 1, jti)
  {
    AcceptedIsRecorded(unseal, calls, i);
  }

  lemma RedeemedStill(unseal: Unseal, calls: seq<Call>, i: nat, n: nat, jti: string)
    requires i < n < |calls| && RedeemedBy(unseal, calls, i, n, jti) && Purges(unseal, calls[i])
    requires Purges(unseal, calls[n]) ==> calls[n].now < Expiry(unseal, calls[i].q.token).value
    ensures RedeemedBy(unseal, calls, i, n + 1, jti)
  {
  }

  /** The ids on record, told by the run alone. */
  lemma OnRecordExactlyWhen(unseal: Unseal, calls: seq<Call>, n: nat, jti: string)
    requires n <= |calls|
    ensures jti in CacheAfter(unseal, calls, n) <==> OnRecord(unseal, calls, n, jti)
  {
    if jti in CacheAfter(unseal, calls, n) {
      var i := Redeemer(unseal, calls, n, jti);
    }
    if OnRecord(unseal, calls, n, jti) {
      var i :| 0 <= i < n && RedeemedBy(unseal, calls, i, n, jti);
      AcceptedIsRecorded(unseal, calls, i);
      StaysOnRecord(unseal, calls, i, n);
    }
  }

  /** The calls whose redemptions stand when call j enters: accepted, not purged
      since, and not expired at its reading. */
  ghost function Standing(unseal: Unseal, calls: seq<Call>, j: nat): set<nat>
    requires j < |calls|
  {
    set i: nat | i < j && StandsAt(unseal, calls, i, j)
  }

  ghost predicate StandsAt(unseal: Unseal, calls: seq<Call>, i: nat, j: nat)
    requires i < j < |calls|
  {
    && Accepted(unseal, calls, i) && !PurgedBetween(unseal, calls, i, j)
    && Expiry(unseal, calls[i].q.token).value > calls[j].now
  }

  /** Those of the caller, and those of its tenant. */
  ghost function Mine(unseal: Unseal, calls: seq<Call>, j: nat): set<nat>
    requires j < |calls|
  {
    set i | i in Standing(unseal, calls, j)
            && calls[i].q.principal == calls[j].q.principal && calls[i].q.tenant == calls[j].q.tenant
  }

  ghost function Tenants(unseal: Unseal, calls: seq<Call>, j: nat): set<nat>
    requires j < |calls|
  {
    set i | i in Standing(unseal, calls, j) && calls[i].q.tenant == calls[j].q.tenant
  }

  /** The caps leave no room: from eight redemptions of one's own on at 10,000 of
      one's own, 250,000 of the tenant or 1,000,000 in all, below that at twice
      the last two. */
  ghost predicate NoRoom(unseal: Unseal, calls: seq<Call>, j: nat)
    requires j < |calls|
  {
    var mine, tenants, all :=
      |Mine(unseal, calls, j)|, |Tenants(unseal, calls, j)|, |Standing(unseal, calls, j)|;
    if mine >= 8 then mine >= 10_000 || tenants >= 250_000 || all >= 1_000_000
    else tenants >= 500_000 || all >= 2_000_000
  }

  /** The id of call j is that of a standing redemption. */
  ghost predicate Spoken(unseal: Unseal, calls: seq<Call>, j: nat)
    requires j < |calls|
  {
    exists i :: i in Standing(unseal, calls, j) && Jti(unseal, calls[i].q.token) == Jti(unseal, calls[j].q.token)
  }

  function JtiOf(unseal: Unseal, calls: seq<Call>, i: nat): string {
    if i < |calls| && Jti(unseal, calls[i].q.token).Some? then Jti(unseal, calls[i].q.token).value else ""
  }

  /** A standing redemption is on record, unexpired, under its own id and owner. */
  lemma StandingIsLive(unseal: Unseal, calls: seq<Call>, i: nat, j: nat)
    requires j < |calls| && i in Standing(unseal, calls, j)
    ensures var live := Live(CacheAfter(unseal, calls, j), calls[j].now);
            && Jti(unseal, calls[i].q.token) == Some(JtiOf(unseal, calls, i)) && JtiOf(unseal, calls, i) in live
            && live[JtiOf(unseal, calls, i)].owner == Owner(calls[i].q.principal, calls[i].q.tenant)
  {
    AcceptedIsRecorded(unseal, calls, i);
    StandingRedemption(unseal, calls, i, j, JtiOf(unseal, calls, i));
  }

  lemma LiveStands(unseal: Unseal, calls: seq<Call>, j: nat, jti: string) returns (i: nat)
    requires j < |calls| && jti in Live(CacheAfter(unseal, calls, j), calls[j].now)
    ensures i in Standing(unseal, calls, j) && JtiOf(unseal, calls, i) == jti
  {
    i := Redeemer(unseal, calls, j, jti);
    StandingRedemption(unseal, calls, i, j, jti);
  }

  lemma StandingApart(unseal: Unseal, calls: seq<Call>, h: nat, i: nat, j: nat)
    requires j < |calls| && h in Standing(unseal, calls, j) && i in Standing(unseal, calls, j) && h < i
    ensures JtiOf(unseal, calls, h) != JtiOf(unseal, calls, i)
  {
    StandingIsLive(unseal, calls, h, j);
    StandingIsLive(unseal, calls, i, j);
    if JtiOf(unseal, calls, h) == JtiOf(unseal, calls, i) { EarlierWasPurged(unseal, calls, h, i, j); }
  }

  /** As many standing redemptions as unexpired ids, among any of them. */
  lemma StandingCounted(unseal: Unseal, calls: seq<Call>, j: nat, some: set<nat>, ids: set<string>)
    requires j < |calls| && some <= Standing(unseal, calls, j)
    requires ids <= Live(CacheAfter(unseal, calls, j), calls[j].now).Keys
    requires forall i :: i in Standing(unseal, calls, j) ==> (i in some <==> JtiOf(unseal, calls, i) in ids)
    ensures |some| == |ids|
  {
    var f := i => JtiOf(unseal, calls, i);
    forall h, i | h in some && i in some && h != i ensures f(h) != f(i) {
      if h < i { StandingApart(unseal, calls, h, i, j); } else { StandingApart(unseal, calls, i, h, j); }
    }
    forall id | id in ids ensures exists i :: i in some && f(i) == id {
      var i := LiveStands(unseal, calls, j, id);
    }
    ImageSize(some, ids, f);
  }

  /** The counts that decide are those of the standing redemptions. */
  lemma CountsOfTheRun(unseal: Unseal, calls: seq<Call>, j: nat)
    requires j < |calls|
    ensures var held, who := Holders(Live(CacheAfter(unseal, calls, j), calls[j].now)),
                             Owner(calls[j].q.principal, calls[j].q.tenant);
            && |held| == |Standing(unseal, calls, j)|
            && Held(held, who) == |Mine(unseal, calls, j)|
            && |InTenant(held, who.tenant)| == |Tenants(unseal, calls, j)|
  {
    var live := Live(CacheAfter(unseal, calls, j), calls[j].now);
    var held, who := Holders(live), Owner(calls[j].q.principal, calls[j].q.tenant);
    forall i | i in Standing(unseal, calls, j)
      ensures JtiOf(unseal, calls, i) in live
      ensures held[JtiOf(unseal, calls, i)] == Owner(calls[i].q.principal, calls[i].q.tenant)
    {
      StandingIsLive(unseal, calls, i, j);
    }
    assert held.Keys == live.Keys;
    StandingCounted(unseal, calls, j, Standing(unseal, calls, j), held.Keys);
    StandingCounted(unseal, calls, j, Mine(unseal, calls, j), IdsOf(held, who));
    StandingCounted(unseal, calls, j, Tenants(unseal, calls, j), InTenant(held, who.tenant).Keys);
    assert |held.Keys| == |held| && |InTenant(held, who.tenant).Keys| == |InTenant(held, who.tenant)|;
  }

  lemma RoomOfTheRun(unseal: Unseal, calls: seq<Call>, j: nat)
    requires j < |calls|
    ensures NoRoom(unseal, calls, j) <==>
            Refused(Holders(Live(CacheAfter(unseal, calls, j), calls[j].now)),
                    Owner(calls[j].q.principal, calls[j].q.tenant))
  {
    CountsOfTheRun(unseal, calls, j);
    RefusedByCounts(Holders(Live(CacheAfter(unseal, calls, j), calls[j].now)),
                    Owner(calls[j].q.principal, calls[j].q.tenant));
  }

  lemma RefusedByCounts(held: Holdings, who: Owner)
    ensures var mine, tenants := Held(held, who), |InTenant(held, who.tenant)|;
            Refused(held, who) <==>
            if mine >= 8 then mine >= 10_000 || tenants >= 250_000 || |held| >= 1_000_000
            else tenants >= 500_000 || |held| >= 2_000_000
  {
  }

  lemma StepAccepts(unseal: Unseal, calls: seq<Call>, j: nat)
    requires j < |calls|
    ensures var live := Live(CacheAfter(unseal, calls, j), calls[j].now);
            Accepted(unseal, calls, j) <==>
            (&& Purges(unseal, calls[j]) && Jti(unseal, calls[j].q.token).value !in live
             && !Refused(Holders(live), Owner(calls[j].q.principal, calls[j].q.tenant)))
  {
  }

  /** Every call of every run is accepted exactly when its token passes the checks,
      no standing redemption has its id, and the caps leave room. */
  lemma AcceptedExactlyWhen(unseal: Unseal, calls: seq<Call>, j: nat)
    requires j < |calls|
    ensures Accepted(unseal, calls, j) <==>
            Purges(unseal, calls[j]) && !Spoken(unseal, calls, j) && !NoRoom(unseal, calls, j)
  {
    StepAccepts(unseal, calls, j);
    RoomOfTheRun(unseal, calls, j);
    if Purges(unseal, calls[j]) { SpokenIsLive(unseal, calls, j); }
  }

  lemma SpokenIsLive(unseal: Unseal, calls: seq<Call>, j: nat)
    requires j < |calls| && Purges(unseal, calls[j])
    ensures Spoken(unseal, calls, j) <==>
            Jti(unseal, calls[j].q.token).value in Live(CacheAfter(unseal, calls, j), calls[j].now)
  {
    var jti := Jti(unseal, calls[j].q.token).value;
    if jti in Live(CacheAfter(unseal, calls, j), calls[j].now) {
      var i := LiveStands(unseal, calls, j, jti);
      StandingIsLive(unseal, calls, i, j);
    }
    if Spoken(unseal, calls, j) {
      var i :| i in Standing(unseal, calls, j) && Jti(unseal, calls[i].q.token) == Jti(unseal, calls[j].q.token);
      StandingIsLive(unseal, calls, i, j);
    }
  }

  lemma StandingRedemption(unseal: Unseal, calls: seq<Call>, i: nat, n: nat, jti: string)
    requires i < n <= |calls| && RedeemedBy(unseal, calls, i, n, jti)
    ensures jti in CacheAfter(unseal, calls, n) && Purges(unseal, calls[i])
    ensures CacheAfter(unseal, calls, n)[jti] == Redemption(unseal, calls[i])
  {
    AcceptedIsRecorded(unseal, calls, i);
    StaysOnRecord(unseal, calls, i, n);
  }

  ghost predicate RedeemedAgain(unseal: Unseal, calls: seq<Call>, i: nat, j: nat)
    requires i < j < |calls|
  {
    exists k :: i < k < j && Accepted(unseal, calls, k)
                && Jti(unseal, calls[k].q.token) == Jti(unseal, calls[i].q.token)
  }

  /** A redeemed token presented again, its id not redeemed in between, is
      accepted exactly when some purge in between read the clock at or after its
      expiry, this call reads it before, and the caps leave room. */
  lemma ReopenedExactlyWhen(unseal: Unseal, calls: seq<Call>, i: nat, j: nat)
    requires i < j < |calls| && Accepted(unseal, calls, i)
    requires calls[i].q == calls[j].q && !RedeemedAgain(unseal, calls, i, j)
    ensures Expiry(unseal, calls[i].q.token).Some?
    ensures Accepted(unseal, calls, j) <==>
            (&& calls[j].now < Expiry(unseal, calls[i].q.token).value
             && PurgedBetween(unseal, calls, i, j) && !NoRoom(unseal, calls, j))
  {
    AcceptedIsRecorded(unseal, calls, i);
    AcceptedExactlyWhen(unseal, calls, j);
    assert Purges(unseal, calls[j]) <==> calls[j].now < Expiry(unseal, calls[i].q.token).value;
    if Purges(unseal, calls[j]) { SpokenUnlessPurged(unseal, calls, i, j); }
  }

  lemma SpokenUnlessPurged(unseal: Unseal, calls: seq<Call>, i: nat, j: nat)
    requires i < j < |calls| && Accepted(unseal, calls, i) && Purges(unseal, calls[j])
    requires calls[i].q == calls[j].q && !RedeemedAgain(unseal, calls, i, j)
    ensures Expiry(unseal, calls[i].q.token).Some?
    ensures Spoken(unseal, calls, j) <==> !PurgedBetween(unseal, calls, i, j)
  {
    AcceptedIsRecorded(unseal, calls, i);
    var jti := Jti(unseal, calls[i].q.token).value;
    if !PurgedBetween(unseal, calls, i, j) {
      assert RedeemedBy(unseal, calls, i, j, jti);
    } else {
      forall h | 0 <= h < j && Accepted(unseal, calls, h) && Jti(unseal, calls[h].q.token) == Some(jti)
        ensures !RedeemedBy(unseal, calls, h, j, jti)
      {
        AcceptedIsRecorded(unseal, calls, h);
        if h < i { EarlierWasPurged(unseal, calls, h, i, j); }
      }
    }
  }

  /** Between two acceptances of an id its expiry was reached by some purge, the
      second acceptance's own at the latest. */
  lemma EarlierWasPurged(unseal: Unseal, calls: seq<Call>, h: nat, i: nat, j: nat)
    requires h < i < j <= |calls| && Accepted(unseal, calls, h) && Accepted(unseal, calls, i)
    requires Jti(unseal, calls[h].q.token) == Jti(unseal, calls[i].q.token)
    ensures Expiry(unseal, calls[h].q.token).Some? && PurgedBetween(unseal, calls, h, j)
  {
    AcceptedIsRecorded(unseal, calls, h);
    StepAccepts(unseal, calls, i);
    if !PurgedBetween(unseal, calls, h, i) {
      StandingRedemption(unseal, calls, h, i, Jti(unseal, calls[i].q.token).value);
      assert calls[i].now >= Expiry(unseal, calls[h].q.token).value;
    } else {
      var k :| h < k < i && Purges(unseal, calls[k]) && calls[k].now >= Expiry(unseal, calls[h].q.token).value;
    }
  }

  // ----- a second acceptance -----

  lemma {:induction false} BelowSize(some: set<nat>, n: nat)
    requires forall i :: i in some ==> i < n
    ensures |some| <= n
    decreases n
  {
    if n > 0 {
      BelowSize(some - {n - 1}, n - 1);
      SubsetSize(some, some - {n - 1} + {n - 1});
    }
  }

  /** The first calls of a run are never short of room. */
  lemma RoomAtFirst(unseal: Unseal, calls: seq<Call>, j: nat)
    requires j < |calls| && j < 8
    ensures !NoRoom(unseal, calls, j)
  {
    BelowSize(Mine(unseal, calls, j), j);
    BelowSize(Tenants(unseal, calls, j), j);
    BelowSize(Standing(unseal, calls, j), j);
  }

  function SealedBy(jti: string, exp: real): Option<Claims> {
    Some(Claims(Some("ann"), Some("t"), Some("r"), Some(exp), Some(jti), Some("d")))
  }

  function PresentedBy(token: string): Presented { Presented(token, "ann", "r", "t") }

  lemma SealedPurges(unseal: Unseal, c: Call, jti: string, exp: real)
    requires unseal(c.q.token) == SealedBy(jti, exp) && jti != "" && c.now < exp
    requires c.q == PresentedBy(c.q.token) && |c.q.token| <= MAX_STATE_CHARS
    ensures Purges(unseal, c) && Jti(unseal, c.q.token) == Some(jti) && Expiry(unseal, c.q.token) == Some(exp)
  {
  }

  /** Two callers that read the clock before queueing for the lock can enter it
      out of order; then the first token really is accepted twice. */
  lemma RegressedReadingReplays()
    ensures exists unseal: Unseal, calls: seq<Call> ::
              && |calls| == 3 && calls[0].q.token == calls[2].q.token
              && calls[1].now > calls[2].now
              && Accepted(unseal, calls, 0) && Accepted(unseal, calls, 2)
  {
    var unseal, calls := RegressedRun();
    RegressionReplays(unseal, calls);
  }

  /** A token that expires at 10 is presented at 1, another at 12, and the first
      again with a reading of 5. */
  lemma RegressedRun() returns (unseal: Unseal, calls: seq<Call>)
    ensures |calls| == 3 && calls[0].q == calls[2].q && calls[1].now > calls[2].now
    ensures Purges(unseal, calls[0]) && Purges(unseal, calls[1]) && Purges(unseal, calls[2])
    ensures Jti(unseal, calls[0].q.token) != Jti(unseal, calls[1].q.token)
    ensures calls[1].now >= Expiry(unseal, calls[0].q.token).value
  {
    unseal := token => if token == "a" then SealedBy("x", 10.0) else SealedBy("y", 20.0);
    calls := [Call(PresentedBy("a"), 1.0), Call(PresentedBy("b"), 12.0), Call(PresentedBy("a"), 5.0)];
    SealedPurges(unseal, calls[0], "x", 10.0);
    SealedPurges(unseal, calls[1], "y", 20.0);
    SealedPurges(unseal, calls[2], "x", 10.0);
  }

  /** Three authentic calls: the first token, then another read late, then the
      first again. */
  lemma RegressionReplays(unseal: Unseal, calls: seq<Call>)
    requires |calls| == 3
    requires Purges(unseal, calls[0]) && Purges(unseal, calls[1]) && Purges(unseal, calls[2])
    requires calls[0].q == calls[2].q
    requires Jti(unseal, calls[0].q.token) != Jti(unseal, calls[1].q.token)
    requires calls[1].now >= Expiry(unseal, calls[0].q.token).value
    ensures Accepted(unseal, calls, 0) && Accepted(unseal, calls, 2)
  {
    AcceptedExactlyWhen(unseal, calls, 0);
    RoomAtFirst(unseal, calls, 0);
    RoomAtFirst(unseal, calls, 2);
    assert PurgedBetween(unseal, calls, 0, 2);
    ReopenedExactlyWhen(unseal, calls, 0, 2);
  }

  // ----- fairness over runs -----

  lemma StepKeepsFair(unseal: Unseal, c: Cache, q: Presented, now: real)
    requires Fair(Holders(c), MAX_SPENT_ENTRIES, MAX_SPENT_PER_TENANT)
    ensures Fair(Holders(OpenOn(unseal, true, c, q, now).cache), MAX_SPENT_ENTRIES, MAX_SPENT_PER_TENANT)
  {
    var live, after := Live(c, now), OpenOn(unseal, true, c, q, now).cache;
    DropKeepsFair(Holders(c), Holders(live), MAX_SPENT_ENTRIES, MAX_SPENT_PER_TENANT);
    if after != c && after != live {
      var jti, who := unseal(q.token).value.jti.value, Owner(q.principal, q.tenant);
      AdmitKeepsFair(Holders(live), MAX_SPENT_ENTRIES, MAX_SPENT_PER_TENANT, jti, who);
      HoldersAfterAdd(live, jti, Spent(who, unseal(q.token).value.exp.value));
    }
  }

  lemma HoldersAfterAdd(c: Cache, jti: string, s: Spent)
    ensures Holders(c[jti := s]) == Holders(c)[jti := s.owner]
  {
  }

  /** In every reachable cache, globally and inside each tenant, what owners
      hold above the floor sums to at most the soft cap, and totals never pass
      twice the cap. */
  lemma {:induction false} AlwaysFair(unseal: Unseal, calls: seq<Call>, n: nat)
    requires n <= |calls|
    ensures Fair(Holders(CacheAfter(unseal, calls, n)), 1_000_000, 250_000)
    decreases n
  {
    if n == 0 {
      assert forall t :: InTenant(Holders(map[]), t) == map[];
    } else {
      AlwaysFair(unseal, calls, n - 1);
      StepKeepsFair(unseal, CacheAfter(unseal, calls, n - 1), calls[n - 1].q, calls[n - 1].now);
    }
  }

  /** No owner ever holds more than the per-owner cap. */
  lemma {:induction false} OwnerCapHolds(unseal: Unseal, calls: seq<Call>, n: nat, o: Owner)
    requires n <= |calls|
    ensures Held(Holders(CacheAfter(unseal, calls, n)), o) <= 10_000
    decreases n
  {
    if n == 0 {
      assert IdsOf(Holders(map[]), o) == {};
    } else {
      OwnerCapHolds(unseal, calls, n - 1, o);
      var c, q, now := CacheAfter(unseal, calls, n - 1), calls[n - 1].q, calls[n - 1].now;
      var live, after := Live(c, now), CacheAfter(unseal, calls, n);
      SubsetSize(IdsOf(Holders(live), o), IdsOf(Holders(c), o));
      if after != c && after != live {
        var jti, who := unseal(q.token).value.jti.value, Owner(q.principal, q.tenant);
        HeldAfterAdd(Holders(live), jti, who, o);
        HoldersAfterAdd(live, jti, Spent(who, unseal(q.token).value.exp.value));
      }
    }
  }
}
