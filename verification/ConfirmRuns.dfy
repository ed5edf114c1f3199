/** Whole runs of the destructive gate: where an accepted token came from, that
    it works once, and what the pending quotas guarantee. */
module ConfirmRuns {
  import opened Common
  import opened Text
  import opened JsonText
  import opened JsonMerge
  import opened Dict
  import opened ConfirmTokens

  ghost function EntriesAfter(e: Engine, calls: seq<Call>, n: nat): Entries
    requires n <= |calls|
  {
    if n == 0 then map[] else HandleOn(e, EntriesAfter(e, calls, n - 1), calls[n - 1]).entries
  }

  ghost function OutcomeOf(e: Engine, calls: seq<Call>, i: nat): Outcome
    requires i < |calls|
  {
    HandleOn(e, EntriesAfter(e, calls, i), calls[i]).outcome
  }

  /** Call i was held up and a token issued for it. */
  ghost predicate Issued(e: Engine, calls: seq<Call>, i: nat)
    requires i < |calls|
  {
    Gated(e, calls[i]) && Presented(e.prims, calls[i]).None? && OutcomeOf(e, calls, i) == Pending(calls[i].newToken)
  }

  /** Call i presented a token at the gate and was let through. */
  ghost predicate Confirmed(e: Engine, calls: seq<Call>, i: nat)
    requires i < |calls|
  {
    Gated(e, calls[i]) && Presented(e.prims, calls[i]).Some? && OutcomeOf(e, calls, i) == Allowed
  }

  /** Tokens come from fresh random bytes. */
  ghost predicate FreshTokens(calls: seq<Call>) {
    forall i, j {:trigger calls[i], calls[j]} :: 0 <= i < j < |calls| ==> calls[i].newToken != calls[j].newToken
  }

  /** Entry k was issued by call i. */
  ghost predicate IssuedBy(e: Engine, calls: seq<Call>, i: nat, k: Text, x: Entry)
    requires i < |calls|
  {
    && Issued(e, calls, i) && KeyOf(e, calls[i]) == k
    && x == Entry(calls[i].newToken, calls[i].asked + e.limits.ttl, OwnerLabel(calls[i].ctx),
                  PrincipalLabel(calls[i].ctx))
  }

  /** One call adds at most its own new entry. */
  lemma StepEntries(e: Engine, es: Entries, c: Call, k: Text)
    requires k in HandleOn(e, es, c).entries
    ensures (k in es && HandleOn(e, es, c).entries[k] == es[k])
            || (&& Gated(e, c) && Presented(e.prims, c).None? && k == KeyOf(e, c)
                && HandleOn(e, es, c).outcome == Pending(c.newToken)
                && HandleOn(e, es, c).entries[k]
                   == Entry(c.newToken, c.asked + e.limits.ttl, OwnerLabel(c.ctx), PrincipalLabel(c.ctx)))
  {
  }

  /** Every pending entry was issued, under its key, by some call of the run. */
  lemma {:induction false} Provenance(e: Engine, calls: seq<Call>, n: nat, k: Text) returns (i: nat)
    requires n <= |calls| && k in EntriesAfter(e, calls, n)
    ensures i < n && IssuedBy(e, calls, i, k, EntriesAfter(e, calls, n)[k])
    decreases n
  {
    var es := EntriesAfter(e, calls, n - 1);
    StepEntries(e, es, calls[n - 1], k);
    if k in es && EntriesAfter(e, calls, n)[k] == es[k] {
      i := Provenance(e, calls, n - 1, k);
    } else {
      i := n - 1;
    }
  }

  lemma ConfirmedEntry(e: Engine, calls: seq<Call>, j: nat)
    requires j < |calls| && Confirmed(e, calls, j)
    ensures var es, k := EntriesAfter(e, calls, j), KeyOf(e, calls[j]);
            && k in es && es[k].token == Presented(e.prims, calls[j]).value && calls[j].now <= es[k].expiry
            && EntriesAfter(e, calls, j + 1) == es - {k}
  {
  }

  /** Nothing destructive is let through but at the gate. */
  lemma AllowedIsConfirmed(e: Engine, calls: seq<Call>, j: nat)
    requires j < |calls| && OutcomeOf(e, calls, j) == Allowed
    requires calls[j].req.subject.Some? && calls[j].req.subject.value in e.policies
    requires e.policies[calls[j].req.subject.value].destructive
    ensures Confirmed(e, calls, j)
  {
  }

  /** A destructive call gets through only with a token issued earlier, no later
      than its TTL, for the same mode, the same session or user and tenant, the
      same tool and the same arguments digest, all up to joined surrogate pairs. */
  lemma ConfirmedWasIssued(e: Engine, calls: seq<Call>, j: nat) returns (i: nat)
    requires j < |calls| && Confirmed(e, calls, j)
    ensures i < j && Issued(e, calls, i)
    ensures Presented(e.prims, calls[j]).value == calls[i].newToken
    ensures calls[j].now <= calls[i].asked + e.limits.ttl
    ensures Merged(BindingOf(e.prims, calls[i]).value) == Merged(BindingOf(e.prims, calls[j]).value)
    ensures calls[i].req.subject == calls[j].req.subject
  {
    ConfirmedEntry(e, calls, j);
    i := Provenance(e, calls, j, KeyOf(e, calls[j]));
    KeyInjective(BindingOf(e.prims, calls[i]).value, calls[i].req.subject.value,
                 BindingOf(e.prims, calls[j]).value, calls[j].req.subject.value);
  }

  /** An entry came from the one call that drew its token. */
  lemma TokenFixesCall(e: Engine, calls: seq<Call>, i: nat, n: nat, k: Text)
    requires i < |calls| && n <= |calls| && FreshTokens(calls) && k in EntriesAfter(e, calls, n)
    requires EntriesAfter(e, calls, n)[k].token == calls[i].newToken
    ensures Issued(e, calls, i) && KeyOf(e, calls[i]) == k
  {
    var j := Provenance(e, calls, n, k);
    assert i == j;
  }

  lemma CameFromBefore(e: Engine, calls: seq<Call>, origin: nat, n: nat, k: Text)
    requires origin + 1 < n <= |calls| && FreshTokens(calls) && k in EntriesAfter(e, calls, n)
    requires EntriesAfter(e, calls, n)[k].token == calls[origin].newToken
    ensures k in EntriesAfter(e, calls, n - 1) && EntriesAfter(e, calls, n - 1)[k] == EntriesAfter(e, calls, n)[k]
  {
    StepEntries(e, EntriesAfter(e, calls, n - 1), calls[n - 1], k);
    assert calls[n - 1].newToken != calls[origin].newToken;
  }

  /** Used up at call i, a token stays used up. */
  lemma {:induction false} StaysUsed(e: Engine, calls: seq<Call>, i: nat, n: nat, k: Text)
    requires i < n <= |calls| && FreshTokens(calls) && Confirmed(e, calls, i)
    requires k in EntriesAfter(e, calls, n)
    ensures EntriesAfter(e, calls, n)[k].token != Presented(e.prims, calls[i]).value
    decreases n
  {
    if n == i + 1 {
      JustUsed(e, calls, i, k);
    } else if EntriesAfter(e, calls, n)[k].token == Presented(e.prims, calls[i]).value {
      UsedBefore(e, calls, i, n, k);
      StaysUsed(e, calls, i, n - 1, k);
      assert false;
    }
  }

  lemma OriginOf(e: Engine, calls: seq<Call>, i: nat) returns (origin: nat)
    requires i < |calls| && Confirmed(e, calls, i)
    ensures origin < i && Issued(e, calls, origin) && KeyOf(e, calls[origin]) == KeyOf(e, calls[i])
    ensures calls[origin].newToken == Presented(e.prims, calls[i]).value
  {
    ConfirmedEntry(e, calls, i);
    origin := Provenance(e, calls, i, KeyOf(e, calls[i]));
  }

  lemma UsedBefore(e: Engine, calls: seq<Call>, i: nat, n: nat, k: Text)
    requires i + 1 < n <= |calls| && FreshTokens(calls) && Confirmed(e, calls, i) && k in EntriesAfter(e, calls, n)
    requires EntriesAfter(e, calls, n)[k].token == Presented(e.prims, calls[i]).value
    ensures k in EntriesAfter(e, calls, n - 1) && EntriesAfter(e, calls, n - 1)[k] == EntriesAfter(e, calls, n)[k]
  {
    var origin := OriginOf(e, calls, i);
    CameFromBefore(e, calls, origin, n, k);
  }

  lemma JustUsed(e: Engine, calls: seq<Call>, i: nat, k: Text)
    requires i < |calls| && FreshTokens(calls) && Confirmed(e, calls, i) && k in EntriesAfter(e, calls, i + 1)
    ensures EntriesAfter(e, calls, i + 1)[k].token != Presented(e.prims, calls[i]).value
  {
    ConfirmedEntry(e, calls, i);
    var origin := OriginOf(e, calls, i);
    if EntriesAfter(e, calls, i + 1)[k].token == calls[origin].newToken {
      TokenFixesCall(e, calls, origin, i + 1, k);
      assert false;
    }
  }

  /** No token lets two destructive calls through. */
  lemma TokenWorksOnce(e: Engine, calls: seq<Call>, i: nat, j: nat)
    requires i < j < |calls| && FreshTokens(calls)
    requires Confirmed(e, calls, i) && Confirmed(e, calls, j)
    ensures Presented(e.prims, calls[i]) != Presented(e.prims, calls[j])
  {
    ConfirmedEntry(e, calls, j);
    StaysUsed(e, calls, i, j, KeyOf(e, calls[j]));
  }

  /** A call that touches another key, while this entry is unexpired, leaves it. */
  lemma StepLeaves(e: Engine, es: Entries, c: Call, k: Text)
    requires k in es && c.now < es[k].expiry && (Gated(e, c) ==> KeyOf(e, c) != k)
    ensures k in HandleOn(e, es, c).entries && HandleOn(e, es, c).entries[k] == es[k]
  {
  }

  lemma IssuedEntry(e: Engine, calls: seq<Call>, i: nat)
    requires i < |calls| && Issued(e, calls, i)
    ensures var k := KeyOf(e, calls[i]);
            k in EntriesAfter(e, calls, i + 1) && IssuedBy(e, calls, i, k, EntriesAfter(e, calls, i + 1)[k])
  {
  }

  lemma {:induction false} StaysPending(e: Engine, calls: seq<Call>, i: nat, n: nat)
    requires i < n <= |calls| && Issued(e, calls, i)
    requires forall m :: i < m < n ==> calls[m].now < calls[i].asked + e.limits.ttl
    requires forall m :: i < m < n && Gated(e, calls[m]) ==> KeyOf(e, calls[m]) != KeyOf(e, calls[i])
    ensures var k := KeyOf(e, calls[i]);
            k in EntriesAfter(e, calls, n) && IssuedBy(e, calls, i, k, EntriesAfter(e, calls, n)[k])
    decreases n
  {
    if n == i + 1 {
      IssuedEntry(e, calls, i);
    } else {
      StaysPending(e, calls, i, n - 1);
      StepLeaves(e, EntriesAfter(e, calls, n - 1), calls[n - 1], KeyOf(e, calls[i]));
    }
  }

  /** An issued token does work: the next call at the gate with its binding and
      tool is let through exactly when it presents it, within the TTL. */
  lemma NextCallConfirmsExactlyWith(e: Engine, calls: seq<Call>, i: nat, j: nat)
    requires i < j < |calls| && Issued(e, calls, i)
    requires forall m :: i < m < j ==> calls[m].now < calls[i].asked + e.limits.ttl
    requires forall m :: i < m < j && Gated(e, calls[m]) ==> KeyOf(e, calls[m]) != KeyOf(e, calls[i])
    requires Gated(e, calls[j]) && KeyOf(e, calls[j]) == KeyOf(e, calls[i])
    ensures Confirmed(e, calls, j) <==>
            Presented(e.prims, calls[j]) == Some(calls[i].newToken)
            && calls[j].now <= calls[i].asked + e.limits.ttl
  {
    StaysPending(e, calls, i, j);
  }

  // ----- what an approval covers -----

  /** The digest is a hash of the canonical text of the arguments, in hex. */
  ghost predicate DigestsBy(prims: Prims, hash: Text -> Text) {
    && (forall v {:trigger prims.digest(v)} :: prims.digest(v) == hash(Dumps(v)))
    && (forall t :: Ascii(hash(t))) && (forall t, u :: hash(t) == hash(u) ==> t == u)
  }

  /** Whom a call is made for: the session, or the user and the tenant. */
  predicate SameCaller(c: Context, d: Context) {
    && c.stateless == d.stateless
    && if c.stateless then MergedText(c.user) == MergedText(d.user) && MergedText(c.tenant) == MergedText(d.tenant)
       else Merge(c.session) == Merge(d.session)
  }

  /** Two calls at the gate have one key exactly when caller and tool are the same,
      and what the digest is taken of, but for split surrogate pairs. */
  lemma KeyCovers(e: Engine, hash: Text -> Text, c: Call, d: Call)
    requires DigestsBy(e.prims, hash) && Gated(e, c) && Gated(e, d)
    requires Printable(CleanArguments(c.req.arguments)) && Printable(CleanArguments(d.req.arguments))
    ensures KeyOf(e, c) == KeyOf(e, d) <==>
            && SameCaller(c.ctx, d.ctx) && c.req.subject == d.req.subject
            && MergeJson(CleanArguments(c.req.arguments)) == MergeJson(CleanArguments(d.req.arguments))
  {
    var v, w := CleanArguments(c.req.arguments), CleanArguments(d.req.arguments);
    KeyInjective(BindingOf(e.prims, c).value, c.req.subject.value, BindingOf(e.prims, d).value, d.req.subject.value);
    AsciiMerges(hash(Dumps(v)));
    AsciiMerges(hash(Dumps(w)));
    PrintAlikeExactlyWhen(v, w);
  }

  lemma AsciiMerges(t: Text)
    requires Ascii(t)
    ensures Merge(t) == t
  {
    MergeFixed(t);
  }

  /** Two arguments, two users, one key. */
  lemma SplitArgumentsPrintAlike(key: Text)
    ensures var v, w := Obj(Field(key, Str(SPLIT), NoFields)), Obj(Field(key, Str(JOINED), NoFields));
            v != w && Dumps(v) == Dumps(w)
  {
    SplitMerges();
    var v, w := Obj(Field(key, Str(SPLIT), NoFields)), Obj(Field(key, Str(JOINED), NoFields));
    MergeOneField(key, Str(SPLIT), NoFields);
    MergeOneField(key, Str(JOINED), NoFields);
    assert MergeJson(v) == MergeJson(w);
    MergePrintsAlike(v);
    MergePrintsAlike(w);
  }

  /** A stateless call, with or without a token. */
  function UserCall(user: Text, tool: Text, arguments: Fields, token: Text): Call {
    Call(Context([], Some(user), None, {}, true), Request(Some(tool), Obj(arguments)), token, 0.0, 0.0)
  }

  function TokenArgument(token: Text): Fields { Field(CONFIRM_TOKEN, Str(token), NoFields) }

  lemma UserCallAtGate(e: Engine, user: Text, tool: Text, token: Text, drawn: Text)
    requires user != [] && token != [] && tool != [] && tool in e.policies
    requires e.policies[tool] == Policy({}, false, false, true)
    ensures var c, d := UserCall(user, tool, NoFields, drawn), UserCall(user, tool, TokenArgument(token), drawn);
            && Gated(e, c) && Gated(e, d) && Presented(e.prims, c).None? && Presented(e.prims, d) == Some(token)
            && BindingOf(e.prims, c) == Some(Stateless(user, None, e.prims.digest(Obj(NoFields))))
            && BindingOf(e.prims, d) == BindingOf(e.prims, c)
  {
    assert Without(TokenArgument(token), CONFIRM_TOKEN) == NoFields == Without(NoFields, CONFIRM_TOKEN);
    assert Get(NoFields, CONFIRM_TOKEN) == None;
    assert Argument(UserCall(user, tool, NoFields, drawn).req, CONFIRM_TOKEN) == Null;
  }

  /** A token issued for one user lets another through, whose name prints alike. */
  lemma SplitUserConfirms(e: Engine, tool: Text, token: Text, calls: seq<Call>)
    requires token != [] && tool != [] && tool in e.policies && e.policies[tool] == Policy({}, false, false, true)
    requires e.limits.ttl >= 0.0
    requires e.limits.maxPerPrincipal >= 1 && e.limits.maxPerOwner >= 1 && e.limits.maxEntries >= 1
    requires calls == [UserCall(JOINED, tool, NoFields, token), UserCall(SPLIT, tool, TokenArgument(token), [])]
    ensures Issued(e, calls, 0) && Confirmed(e, calls, 1) && calls[0].ctx.user != calls[1].ctx.user
  {
    UserCallAtGate(e, JOINED, tool, token, token);
    UserCallAtGate(e, SPLIT, tool, token, []);
    SplitUsersShareKey(None, e.prims.digest(Obj(NoFields)), tool);
    FirstIssue(e, calls);
    NextCallConfirmsExactlyWith(e, calls, 0, 1);
  }

  // ----- the pending quotas -----

  lemma StepTotal(e: Engine, es: Entries, c: Call)
    requires |es| <= e.limits.maxEntries
    ensures |HandleOn(e, es, c).entries| <= e.limits.maxEntries
  {
    var after := HandleOn(e, es, c).entries;
    var live := Unexpired(es, c.now);
    SubsetSize(live.Keys, es.Keys);
    assert |live.Keys| == |live| && |es.Keys| == |es|;
  }

  /** The store never holds more than its maximum. */
  lemma {:induction false} TotalQuota(e: Engine, calls: seq<Call>, n: nat)
    requires n <= |calls| && e.limits.maxEntries >= 0
    ensures |EntriesAfter(e, calls, n)| <= e.limits.maxEntries
    decreases n
  {
    if n > 0 {
      TotalQuota(e, calls, n - 1);
      StepTotal(e, EntriesAfter(e, calls, n - 1), calls[n - 1]);
    }
  }

  /** The binding fixes the owner: calls with the same key have the same owner. */
  lemma KeyFixesOwner(e: Engine, c: Call, d: Call)
    requires Gated(e, c) && Gated(e, d) && KeyOf(e, c) == KeyOf(e, d)
    ensures OwnerLabel(c.ctx) == OwnerLabel(d.ctx)
  {
    KeyInjective(BindingOf(e.prims, c).value, c.req.subject.value, BindingOf(e.prims, d).value, d.req.subject.value);
    MergePrintsAlike(OwnerJson(c.ctx));
    MergePrintsAlike(OwnerJson(d.ctx));
    OwnerMerges(c.ctx);
    OwnerMerges(d.ctx);
  }

  lemma OwnerMerges(ctx: Context)
    ensures MergeJson(OwnerJson(ctx))
            == OwnerJson(ctx.(session := Merge(ctx.session), user := MergedText(ctx.user),
                              tenant := MergedText(ctx.tenant)))
  {
    Tags();
    MergeNoItems();
    if ctx.stateless {
      var last := Item(OrNull(ctx.tenant), NoItems);
      OrNullMerges(ctx.user);
      OrNullMerges(ctx.tenant);
      MergeOneItem(OrNull(ctx.tenant), NoItems);
      MergeOneItem(OrNull(ctx.user), last);
      MergeOneItem(Str(STATELESS), Item(OrNull(ctx.user), last));
    } else {
      MergeOneItem(Str(ctx.session), NoItems);
      MergeOneItem(Str(SESSION), Item(Str(ctx.session), NoItems));
    }
  }

  lemma IssueOwners(l: StoreLimits, es: Entries, q: IssueRequest, o: Text)
    requires |OwnedBy(es, o)| <= l.maxPerOwner
    requires q.key in es ==> es[q.key].owner == q.owner
    ensures |OwnedBy(IssueOn(l, es, q).entries, o)| <= l.maxPerOwner
  {
    var live, after := Unexpired(es, q.now), IssueOn(l, es, q).entries;
    SubsetSize(OwnedBy(live, o), OwnedBy(es, o));
    if after != live { OwnedAfterPut(live, q.key, after[q.key], o); }
  }

  lemma OwnedAfterPut(es: Entries, k: Text, x: Entry, o: Text)
    requires k in es ==> es[k].owner == x.owner
    ensures |OwnedBy(es[k := x], o)| == |OwnedBy(es, o)| + if k !in es && x.owner == o then 1 else 0
  {
    if k !in es && x.owner == o {
      assert OwnedBy(es[k := x], o) == OwnedBy(es, o) + {k};
    } else {
      assert OwnedBy(es[k := x], o) == OwnedBy(es, o);
    }
  }

  /** No owner ever has more pending confirmations than its quota. */
  lemma {:induction false} OwnerQuota(e: Engine, calls: seq<Call>, n: nat, o: Text)
    requires n <= |calls| && e.limits.maxPerOwner >= 0
    ensures |OwnedBy(EntriesAfter(e, calls, n), o)| <= e.limits.maxPerOwner
    decreases n
  {
    if n == 0 {
      assert OwnedBy(map[], o) == {};
      return;
    }
    OwnerQuota(e, calls, n - 1, o);
    var es, c := EntriesAfter(e, calls, n - 1), calls[n - 1];
    if Gated(e, c) && KeyOf(e, c) in es {
      var i := Provenance(e, calls, n - 1, KeyOf(e, c));
      KeyFixesOwner(e, calls[i], c);
    }
    StepOwners(e, es, c, o);
  }

  lemma StepOwners(e: Engine, es: Entries, c: Call, o: Text)
    requires |OwnedBy(es, o)| <= e.limits.maxPerOwner
    requires Gated(e, c) && KeyOf(e, c) in es ==> es[KeyOf(e, c)].owner == OwnerLabel(c.ctx)
    ensures |OwnedBy(HandleOn(e, es, c).entries, o)| <= e.limits.maxPerOwner
  {
    if Gated(e, c) && Presented(e.prims, c).None? {
      IssueOwners(e.limits, es, IssueFor(e, c), o);
    } else {
      SubsetSize(OwnedBy(HandleOn(e, es, c).entries, o), OwnedBy(es, o));
    }
  }

  /** The per-principal quota is only checked for new keys: issuing keeps it
      exactly unless it replaces, for a principal already at the quota, an
      unexpired entry some other principal had pending under the same key. */
  lemma PrincipalQuotaExactlyWhen(l: StoreLimits, es: Entries, q: IssueRequest)
    requires |ByPrincipal(Unexpired(es, q.now), q.principal)| <= l.maxPerPrincipal
    ensures var live := Unexpired(es, q.now);
            |ByPrincipal(IssueOn(l, es, q).entries, q.principal)| <= l.maxPerPrincipal <==>
            !(&& q.key in live && live[q.key].principal != q.principal
              && |ByPrincipal(live, q.principal)| == l.maxPerPrincipal)
  {
    var live, after := Unexpired(es, q.now), IssueOn(l, es, q).entries;
    if after != live || q.key in live {
      if q.key in live && live[q.key].principal == q.principal {
        assert ByPrincipal(after, q.principal) == ByPrincipal(live, q.principal);
      } else {
        assert q.key !in ByPrincipal(live, q.principal);
        assert ByPrincipal(after, q.principal) == ByPrincipal(live, q.principal) + {q.key};
      }
    }
  }

  /** Call m replaced another principal's unexpired entry by one of principal p,
      who was at the quota. */
  ghost predicate ReplacesAtQuota(e: Engine, calls: seq<Call>, m: nat, p: Text)
    requires m < |calls|
  {
    && Issued(e, calls, m) && PrincipalLabel(calls[m].ctx) == p
    && var live := Unexpired(EntriesAfter(e, calls, m), calls[m].now);
    && KeyOf(e, calls[m]) in live && live[KeyOf(e, calls[m])].principal != p
    && |ByPrincipal(live, p)| >= e.limits.maxPerPrincipal
  }

  /** What one call adds to a principal's pending entries. */
  lemma StepPrincipal(e: Engine, calls: seq<Call>, m: nat, p: Text)
    requires m < |calls| && |ByPrincipal(EntriesAfter(e, calls, m), p)| <= e.limits.maxPerPrincipal
    requires !ReplacesAtQuota(e, calls, m, p)
    ensures |ByPrincipal(EntriesAfter(e, calls, m + 1), p)| <= e.limits.maxPerPrincipal
  {
    var es, c, after := EntriesAfter(e, calls, m), calls[m], EntriesAfter(e, calls, m + 1);
    var live := Unexpired(es, c.now);
    SubsetSize(ByPrincipal(live, p), ByPrincipal(es, p));
    if Issued(e, calls, m) {
      IssuePrincipals(e.limits, es, IssueFor(e, c), p);
    } else {
      NotIssued(e, calls, m, p);
      SubsetSize(ByPrincipal(after, p), ByPrincipal(es, p));
    }
  }

  lemma NotIssued(e: Engine, calls: seq<Call>, m: nat, p: Text)
    requires m < |calls| && !Issued(e, calls, m)
    ensures ByPrincipal(EntriesAfter(e, calls, m + 1), p) <= ByPrincipal(EntriesAfter(e, calls, m), p)
  {
    forall k | k in EntriesAfter(e, calls, m + 1)
      ensures k in EntriesAfter(e, calls, m) && EntriesAfter(e, calls, m + 1)[k] == EntriesAfter(e, calls, m)[k]
    {
      StepEntries(e, EntriesAfter(e, calls, m), calls[m], k);
    }
  }

  lemma IssuePrincipals(l: StoreLimits, es: Entries, q: IssueRequest, p: Text)
    requires |ByPrincipal(Unexpired(es, q.now), p)| <= l.maxPerPrincipal
    requires var live := Unexpired(es, q.now);
             !(q.principal == p && q.key in live && live[q.key].principal != p
               && |ByPrincipal(live, p)| >= l.maxPerPrincipal)
    ensures |ByPrincipal(IssueOn(l, es, q).entries, p)| <= l.maxPerPrincipal
  {
    var live, after := Unexpired(es, q.now), IssueOn(l, es, q).entries;
    if q.principal == p {
      PrincipalQuotaExactlyWhen(l, es, q);
    } else {
      SubsetSize(ByPrincipal(after, p), ByPrincipal(live, p));
    }
  }

  /** In every run a principal passes its quota only after such a replacement. */
  lemma {:induction false} QuotaPassedOnlyByReplacing(e: Engine, calls: seq<Call>, n: nat, p: Text)
    requires n <= |calls| && e.limits.maxPerPrincipal >= 0
    requires forall m :: 0 <= m < n ==> !ReplacesAtQuota(e, calls, m, p)
    ensures |ByPrincipal(EntriesAfter(e, calls, n), p)| <= e.limits.maxPerPrincipal
    decreases n
  {
    if n == 0 {
      assert ByPrincipal(map[], p) == {};
    } else {
      QuotaPassedOnlyByReplacing(e, calls, n - 1, p);
      StepPrincipal(e, calls, n - 1, p);
    }
  }

  // ----- a run that passes the quota -----

  /** Three calls without a token, room for one entry per principal: a first
      user's, a second user's, and the second user's with the first one's key. */
  lemma ReplacementPassesQuota(e: Engine, calls: seq<Call>)
    requires |calls| == 3 && forall i :: 0 <= i < 3 ==> Gated(e, calls[i]) && Presented(e.prims, calls[i]).None?
    requires e.limits.maxPerPrincipal == 1 && e.limits.maxPerOwner >= 2 && e.limits.maxEntries >= 2
    requires forall i, j :: 0 <= i < j < 3 ==> calls[j].now < calls[i].asked + e.limits.ttl
    requires KeyOf(e, calls[0]) == KeyOf(e, calls[2]) != KeyOf(e, calls[1])
    requires PrincipalLabel(calls[0].ctx) != PrincipalLabel(calls[1].ctx) == PrincipalLabel(calls[2].ctx)
    ensures |ByPrincipal(EntriesAfter(e, calls, 3), PrincipalLabel(calls[2].ctx))| == 2
  {
    FirstIssue(e, calls);
    SecondIssue(e, calls);
    var es, q := EntriesAfter(e, calls, 2), IssueFor(e, calls[2]);
    assert EntriesAfter(e, calls, 3) == IssueOn(e.limits, es, q).entries;
    Takeover(e.limits, es, q, KeyOf(e, calls[1]));
  }

  /** Taking over another principal's entry is not checked against the quota. */
  lemma Takeover(l: StoreLimits, es: Entries, q: IssueRequest, own: Text)
    requires es.Keys == {q.key, own} && q.key != own && es[own].principal == q.principal
    requires q.now < es[own].expiry && q.now < es[q.key].expiry
    ensures |ByPrincipal(IssueOn(l, es, q).entries, q.principal)| == 2
  {
    assert Unexpired(es, q.now) == es;
    assert ByPrincipal(IssueOn(l, es, q).entries, q.principal) == {q.key, own};
  }

  lemma FirstIssue(e: Engine, calls: seq<Call>)
    requires |calls| > 0 && Gated(e, calls[0]) && Presented(e.prims, calls[0]).None?
    requires e.limits.maxPerPrincipal >= 1 && e.limits.maxPerOwner >= 1 && e.limits.maxEntries >= 1
    ensures EntriesAfter(e, calls, 1).Keys == {KeyOf(e, calls[0])}
    ensures IssuedBy(e, calls, 0, KeyOf(e, calls[0]), EntriesAfter(e, calls, 1)[KeyOf(e, calls[0])])
  {
    var q := IssueFor(e, calls[0]);
    assert EntriesAfter(e, calls, 0) == map[];
    assert Unexpired(map[], q.now).Keys == {};
    assert OwnedBy(Unexpired(map[], q.now), q.owner) == {} == ByPrincipal(Unexpired(map[], q.now), q.principal);
    assert |Unexpired(map[], q.now)| == |Unexpired(map[], q.now).Keys|;
    assert !NoRoom(e.limits, Unexpired(map[], q.now), q);
    assert EntriesAfter(e, calls, 1) == IssueOn(e.limits, map[], q).entries;
  }

  lemma SecondIssue(e: Engine, calls: seq<Call>)
    requires |calls| > 1 && Gated(e, calls[0]) && Gated(e, calls[1]) && Presented(e.prims, calls[1]).None?
    requires EntriesAfter(e, calls, 1).Keys == {KeyOf(e, calls[0])}
    requires IssuedBy(e, calls, 0, KeyOf(e, calls[0]), EntriesAfter(e, calls, 1)[KeyOf(e, calls[0])])
    requires e.limits.maxPerPrincipal >= 1 && e.limits.maxPerOwner >= 2 && e.limits.maxEntries >= 2
    requires calls[1].now < calls[0].asked + e.limits.ttl
    requires KeyOf(e, calls[0]) != KeyOf(e, calls[1])
    requires PrincipalLabel(calls[0].ctx) != PrincipalLabel(calls[1].ctx)
    ensures EntriesAfter(e, calls, 2).Keys == {KeyOf(e, calls[0]), KeyOf(e, calls[1])}
    ensures IssuedBy(e, calls, 0, KeyOf(e, calls[0]), EntriesAfter(e, calls, 2)[KeyOf(e, calls[0])])
    ensures IssuedBy(e, calls, 1, KeyOf(e, calls[1]), EntriesAfter(e, calls, 2)[KeyOf(e, calls[1])])
  {
    var es, q := EntriesAfter(e, calls, 1), IssueFor(e, calls[1]);
    assert Unexpired(es, q.now) == es;
    assert ByPrincipal(es, q.principal) == {};
    SubsetSize(OwnedBy(es, q.owner), {KeyOf(e, calls[0])});
    assert |es| == |es.Keys| == 1;
    assert !NoRoom(e.limits, es, q);
    assert EntriesAfter(e, calls, 2) == IssueOn(e.limits, es, q).entries;
  }

  /** A call in one session without arguments or tenant. */
  function PlainCall(user: Text, tool: Text, token: Text): Call {
    Call(Context(Lit("s"), Some(user), None, {}, false), Request(Some(tool), Obj(NoFields)), token, 0.0, 0.0)
  }

  lemma PlainCallAtGate(e: Engine, user: Text, tool: Text, token: Text)
    requires tool != [] && tool in e.policies && e.policies[tool] == Policy({}, false, false, true)
    ensures Gated(e, PlainCall(user, tool, token))
    ensures Presented(e.prims, PlainCall(user, tool, token)).None?
  {
    var c := PlainCall(user, tool, token);
    assert Argument(c.req, CONFIRM_TOKEN) == Null;
  }

  lemma UsersApart(u: Text, v: Text, a: Context, b: Context)
    requires u != v && u != [] && v != [] && NoSplitPair(u) && NoSplitPair(v)
    requires a.user == Some(u) && b.user == Some(v) && a.tenant == None && b.tenant == None
    ensures PrincipalLabel(a) != PrincipalLabel(b)
  {
    var rest := Item(Null, NoItems);
    var x, y := Arr(Item(Str(u), rest)), Arr(Item(Str(v), rest));
    assert DecodedItems(NoItems) && DecodedItems(rest);
    assert Decoded(x) && Decoded(y);
    if Dumps(x) == Dumps(y) { DumpsInjective(x, y); }
  }

  lemma SharedSession(e: Engine, u: Text, v: Text, a: Text, b: Text, calls: seq<Call>)
    requires |u| == |v| == |a| == |b| == 1 && u != v && a != b
    requires a in e.policies && e.policies[a] == Policy({}, false, false, true)
    requires b in e.policies && e.policies[b] == Policy({}, false, false, true)
    requires e.limits == StoreLimits(60.0, 10, 10, 1)
    requires |calls| == 3 && calls[0] == PlainCall(u, a, calls[0].newToken)
    requires calls[1] == PlainCall(v, b, calls[1].newToken) && calls[2] == PlainCall(v, a, calls[2].newToken)
    ensures |ByPrincipal(EntriesAfter(e, calls, 3), PrincipalLabel(calls[2].ctx))| == 2 > e.limits.maxPerPrincipal
  {
    PlainCallAtGate(e, u, a, calls[0].newToken);
    PlainCallAtGate(e, v, b, calls[1].newToken);
    PlainCallAtGate(e, v, a, calls[2].newToken);
    UsersApart(u, v, calls[0].ctx, calls[1].ctx);
    PlainKeys(e, u, a, calls[0].newToken, v, b, calls[1].newToken);
    PlainKeys(e, u, a, calls[0].newToken, v, a, calls[2].newToken);
    ReplacementPassesQuota(e, calls);
  }

  /** In one session, without arguments, only the tool tells keys apart. */
  lemma PlainKeys(e: Engine, u: Text, a: Text, t: Text, v: Text, b: Text, t': Text)
    requires Gated(e, PlainCall(u, a, t)) && Gated(e, PlainCall(v, b, t'))
    ensures KeyOf(e, PlainCall(u, a, t)) == KeyOf(e, PlainCall(v, b, t')) <==> a == b
  {
    var c, d := PlainCall(u, a, t), PlainCall(v, b, t');
    assert CleanArguments(Obj(NoFields)) == Obj(NoFields);
    var binding := Session(Lit("s"), e.prims.digest(Obj(NoFields)));
    assert BindingOf(e.prims, c) == Some(binding) == BindingOf(e.prims, d);
    KeyInjective(binding, a, binding, b);
  }

  /** One session used by two users: the second has two entries pending where one
      is allowed. */
  lemma SharedSessionPassesQuota()
    ensures exists e: Engine, calls: seq<Call>, p: Text ::
              |calls| == 3 && |ByPrincipal(EntriesAfter(e, calls, 3), p)| > e.limits.maxPerPrincipal
  {
    var ann, bob, drop, wipe := FourNames();
    SharedEngineIs(drop, wipe);
    var calls := [PlainCall(ann, drop, []), PlainCall(bob, wipe, []), PlainCall(bob, drop, [])];
    SharedSession(SharedEngine(drop, wipe), ann, bob, drop, wipe, calls);
  }

  lemma FourNames() returns (ann: Text, bob: Text, drop: Text, wipe: Text)
    ensures |ann| == |bob| == |drop| == |wipe| == 1 && ann != bob && drop != wipe
  {
    ann, bob, drop, wipe := Char('a'), Char('b'), Char('d'), Char('w');
  }

  lemma SharedEngineIs(a: Text, b: Text)
    ensures var e := SharedEngine(a, b);
            && a in e.policies && e.policies[a] == Policy({}, false, false, true)
            && b in e.policies && e.policies[b] == Policy({}, false, false, true)
            && e.limits == StoreLimits(60.0, 10, 10, 1)
  {
  }

  function SharedEngine(a: Text, b: Text): Engine {
    var always := Policy({}, false, false, true);
    Engine(map[a := always, b := always], true, StoreLimits(60.0, 10, 10, 1), Prims(_ => [], _ => []))
  }
}
