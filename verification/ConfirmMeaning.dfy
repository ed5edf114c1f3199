/** What the destructive gate decides, told of the calls as they were sent: what an
    approval covers, key by key, and what every policy demands. */
module ConfirmMeaning {
  import opened Common
  import opened Text
  import opened JsonText
  import opened JsonMerge
  import opened Dict
  import opened TextOrder
  import opened ConfirmTokens
  import opened ConfirmRuns

  // ----- arguments that are the same but for joined pairs -----

  predicate AlikeValues(v: Json, w: Json) { MergeJson(v) == MergeJson(w) }

  /** Two dicts hold, field by field, names and values that are the same up to
      joined surrogate pairs; fields under the skipped name do not matter. */
  predicate AlikeBut(fs: Fields, gs: Fields, skipped: Text)
    decreases fs, gs
  {
    if fs.Field? && fs.key == skipped then AlikeBut(fs.rest, gs, skipped)
    else if gs.Field? && gs.key == skipped then AlikeBut(fs, gs.rest, skipped)
    else if fs.NoFields? || gs.NoFields? then fs.NoFields? && gs.NoFields?
    else Merge(fs.key) == Merge(gs.key) && AlikeValues(fs.value, gs.value) && AlikeBut(fs.rest, gs.rest, skipped)
  }

  predicate AlikeArguments(v: Json, w: Json) {
    if v.Obj? && w.Obj? then AlikeBut(v.fields, w.fields, Lit("_confirm_token")) else AlikeValues(v, w)
  }

  lemma {:induction false} AlikeIs(fs: Fields, gs: Fields, skipped: Text)
    ensures MergeFields(Without(fs, skipped)) == MergeFields(Without(gs, skipped)) <==> AlikeBut(fs, gs, skipped)
    decreases fs, gs
  {
    if fs.Field? && fs.key == skipped {
      AlikeIs(fs.rest, gs, skipped);
    } else if gs.Field? && gs.key == skipped {
      AlikeIs(fs, gs.rest, skipped);
    } else if fs.Field? && gs.Field? {
      AlikeIs(fs.rest, gs.rest, skipped);
    }
  }

  lemma AlikeArgumentsIs(v: Json, w: Json)
    ensures MergeJson(CleanArguments(v)) == MergeJson(CleanArguments(w)) <==> AlikeArguments(v, w)
  {
    if v.Obj? && w.Obj? { AlikeIs(v.fields, w.fields, CONFIRM_TOKEN); }
  }

  lemma {:induction false} WithoutPrintable(fs: Fields, k: Text)
    requires PrintableFields(fs)
    ensures PrintableFields(Without(fs, k))
  {
    if fs.Field? { WithoutPrintable(fs.rest, k); }
  }

  /** Two calls at the gate have one key exactly when caller, tool and arguments are
      the same but for split surrogate pairs; only the confirmation token is left out. */
  lemma KeyCoversExactly(e: Engine, hash: Text -> Text, c: Call, d: Call)
    requires DigestsBy(e.prims, hash) && Gated(e, c) && Gated(e, d)
    requires Printable(c.req.arguments) && Printable(d.req.arguments)
    ensures KeyOf(e, c) == KeyOf(e, d) <==>
            && SameCaller(c.ctx, d.ctx) && c.req.subject == d.req.subject
            && AlikeArguments(c.req.arguments, d.req.arguments)
  {
    if c.req.arguments.Obj? { WithoutPrintable(c.req.arguments.fields, CONFIRM_TOKEN); }
    if d.req.arguments.Obj? { WithoutPrintable(d.req.arguments.fields, CONFIRM_TOKEN); }
    KeyCovers(e, hash, c, d);
    AlikeArgumentsIs(c.req.arguments, d.req.arguments);
  }

  // ----- key by key -----

  /** No name has a split surrogate pair. */
  predicate PlainNames(fs: Fields) { fs.Field? ==> NoSplitPair(fs.key) && PlainNames(fs.rest) }

  /** Both absent, or values that are the same up to joined pairs. */
  predicate AlikeOptions(v: Option<Json>, w: Option<Json>) {
    if v.None? || w.None? then v.None? && w.None? else AlikeValues(v.value, w.value)
  }

  lemma {:induction false} AlikeUnder(fs: Fields, gs: Fields, skipped: Text, k: Text)
    requires AlikeBut(fs, gs, skipped) && PlainNames(fs) && PlainNames(gs) && k != skipped
    ensures AlikeOptions(Get(fs, k), Get(gs, k))
    decreases fs, gs
  {
    if fs.Field? && fs.key == skipped {
      AlikeUnder(fs.rest, gs, skipped, k);
    } else if gs.Field? && gs.key == skipped {
      AlikeUnder(fs, gs.rest, skipped, k);
    } else if fs.Field? {
      MergeFixed(fs.key);
      MergeFixed(gs.key);
      AlikeUnder(fs.rest, gs.rest, skipped, k);
    }
  }

  /** The names are in order, each once: a dict. */
  predicate Ordered(fs: Fields) {
    fs.Field? && fs.rest.Field? ==> Before(fs.key, fs.rest.key) && Ordered(fs.rest)
  }

  /** A name before the first is under none. */
  lemma {:induction false} NotBelow(fs: Fields, k: Text)
    requires Ordered(fs) && (fs.Field? ==> Before(k, fs.key))
    ensures Get(fs, k).None?
    decreases fs
  {
    if fs.Field? {
      Trichotomy(k, fs.key);
      if fs.rest.Field? { BeforeTransitive(k, fs.key, fs.rest.key); }
      NotBelow(fs.rest, k);
    }
  }

  /** Under every name but one, the same up to joined pairs. */
  ghost predicate AlikeEach(fs: Fields, gs: Fields, skipped: Text) {
    forall k :: k != skipped ==> AlikeOptions(Get(fs, k), Get(gs, k))
  }

  lemma {:induction false} AlikeFromUnder(fs: Fields, gs: Fields, skipped: Text)
    requires Ordered(fs) && Ordered(gs) && AlikeEach(fs, gs, skipped)
    ensures AlikeBut(fs, gs, skipped)
    decreases fs, gs
  {
    if fs.Field? && fs.key == skipped {
      forall k | k != skipped ensures AlikeOptions(Get(fs.rest, k), Get(gs, k)) {
        assert Get(fs, k) == Get(fs.rest, k);
      }
      AlikeFromUnder(fs.rest, gs, skipped);
    } else if gs.Field? && gs.key == skipped {
      forall k | k != skipped ensures AlikeOptions(Get(fs, k), Get(gs.rest, k)) {
        assert Get(gs, k) == Get(gs.rest, k);
      }
      AlikeFromUnder(fs, gs.rest, skipped);
    } else if fs.Field? || gs.Field? {
      SameFirst(fs, gs, skipped);
      forall k | k != skipped ensures AlikeOptions(Get(fs.rest, k), Get(gs.rest, k)) {
        RestUnder(fs, k);
        RestUnder(gs, k);
        assert AlikeOptions(Get(fs, k), Get(gs, k));
      }
      AlikeFromUnder(fs.rest, gs.rest, skipped);
    }
  }

  lemma RestUnder(fs: Fields, k: Text)
    requires Ordered(fs) && fs.Field?
    ensures Get(fs.rest, k) == if k == fs.key then None else Get(fs, k)
  {
    if k == fs.key { NotBelow(fs.rest, k); }
  }

  lemma SameFirst(fs: Fields, gs: Fields, skipped: Text)
    requires Ordered(fs) && Ordered(gs) && (fs.Field? || gs.Field?)
    requires (fs.Field? ==> fs.key != skipped) && (gs.Field? ==> gs.key != skipped) && AlikeEach(fs, gs, skipped)
    ensures fs.Field? && gs.Field? && fs.key == gs.key && AlikeValues(fs.value, gs.value)
  {
    if fs.Field? { assert AlikeOptions(Get(fs, fs.key), Get(gs, fs.key)); }
    if gs.Field? { assert AlikeOptions(Get(fs, gs.key), Get(gs, gs.key)); }
    if fs.Field? && gs.Field? {
      Trichotomy(fs.key, gs.key);
      if Before(fs.key, gs.key) { NotBelow(gs, fs.key); }
      if Before(gs.key, fs.key) { NotBelow(fs, gs.key); }
    }
  }

  /** For dicts whose names have no split pairs, key by key: two calls at the gate
      have one key exactly when caller and tool are the same and the arguments
      under every name but the token's are. */
  lemma KeyCoversEachName(e: Engine, hash: Text -> Text, c: Call, d: Call)
    requires DigestsBy(e.prims, hash) && Gated(e, c) && Gated(e, d)
    requires Printable(c.req.arguments) && Printable(d.req.arguments)
    requires c.req.arguments.Obj? && Ordered(c.req.arguments.fields) && PlainNames(c.req.arguments.fields)
    requires d.req.arguments.Obj? && Ordered(d.req.arguments.fields) && PlainNames(d.req.arguments.fields)
    ensures KeyOf(e, c) == KeyOf(e, d) <==>
            && SameCaller(c.ctx, d.ctx) && c.req.subject == d.req.subject
            && AlikeEach(c.req.arguments.fields, d.req.arguments.fields, Lit("_confirm_token"))
  {
    var fs, gs := c.req.arguments.fields, d.req.arguments.fields;
    KeyCoversExactly(e, hash, c, d);
    if AlikeBut(fs, gs, CONFIRM_TOKEN) {
      forall k | k != CONFIRM_TOKEN ensures AlikeOptions(Get(fs, k), Get(gs, k)) {
        AlikeUnder(fs, gs, CONFIRM_TOKEN, k);
      }
    }
    if AlikeEach(fs, gs, CONFIRM_TOKEN) { AlikeFromUnder(fs, gs, CONFIRM_TOKEN); }
  }

  /** A destructive call gets through only with a token issued earlier, no later than
      its TTL, to the same caller, for the same tool and the same arguments, all up
      to joined surrogate pairs. */
  lemma ConfirmedArguments(e: Engine, hash: Text -> Text, calls: seq<Call>, j: nat) returns (i: nat)
    requires j < |calls| && Confirmed(e, calls, j) && DigestsBy(e.prims, hash)
    requires forall c :: c in calls ==> Printable(c.req.arguments)
    ensures i < j && Issued(e, calls, i) && Presented(e.prims, calls[j]) == Some(calls[i].newToken)
    ensures calls[j].now <= calls[i].asked + e.limits.ttl
    ensures SameCaller(calls[i].ctx, calls[j].ctx) && calls[i].req.subject == calls[j].req.subject
    ensures AlikeArguments(calls[i].req.arguments, calls[j].req.arguments)
  {
    ConfirmedEntry(e, calls, j);
    i := Provenance(e, calls, j, KeyOf(e, calls[j]));
    KeyCoversExactly(e, hash, calls[i], calls[j]);
  }

  /** So under every name but the token's, the call that gets through has the
      argument that was approved, and neither has a name the other lacks. */
  lemma ConfirmedEachArgument(e: Engine, hash: Text -> Text, calls: seq<Call>, j: nat, fs: Fields, k: Text)
    returns (i: nat)
    requires j < |calls| && Confirmed(e, calls, j) && DigestsBy(e.prims, hash)
    requires forall c :: c in calls ==> Printable(c.req.arguments)
    requires forall c :: c in calls && c.req.arguments.Obj? ==> PlainNames(c.req.arguments.fields)
    requires calls[j].req.arguments == Obj(fs) && k != Lit("_confirm_token")
    ensures i < j && Issued(e, calls, i) && Presented(e.prims, calls[j]) == Some(calls[i].newToken)
    ensures calls[i].req.arguments.Obj? && AlikeOptions(Get(calls[i].req.arguments.fields, k), Get(fs, k))
  {
    i := ConfirmedArguments(e, hash, calls, j);
    AlikeUnder(calls[i].req.arguments.fields, fs, CONFIRM_TOKEN, k);
  }

  // ----- the gate -----

  /** What a tool's policy demands of a call, but for a confirmation. */
  predicate Entitled(e: Engine, c: Call, tool: Text)
    requires tool in e.policies
  {
    && (forall s :: s in e.policies[tool].requiredScopes ==> s in c.ctx.scopes)
    && (e.policies[tool].userOnly ==> c.ctx.user != None && c.ctx.user != Some([]))
    && (e.policies[tool].tenantIsolated ==>
          && c.req.arguments.Obj? && c.ctx.tenant.Some?
          && Get(c.req.arguments.fields, Lit("tenant_id")) == Some(Str(c.ctx.tenant.value)))
  }

  lemma EntitledIs(e: Engine, c: Call, tool: Text)
    requires tool in e.policies
    ensures PolicyAllows(e.policies[tool], c) <==> Entitled(e, c, tool)
  {
  }

  /** Without a name no call gets through; to a tool without a policy each does or
      none, by the default; to a listed tool only who is entitled, and everyone who
      is unless it is destructive; and only destructive tools touch the tokens. */
  lemma AllowedExactlyWhen(e: Engine, es: Entries, c: Call)
    ensures c.req.subject in {None, Some([])} ==> HandleOn(e, es, c) == Handled(es, Denied)
    ensures forall tool :: c.req.subject == Some(tool) && tool != [] && tool !in e.policies ==>
              HandleOn(e, es, c) == Handled(es, if e.defaultDeny then Denied else Allowed)
    ensures forall tool :: c.req.subject == Some(tool) && tool != [] && tool in e.policies ==>
              && (!Entitled(e, c, tool) ==> HandleOn(e, es, c) == Handled(es, Denied))
              && (Entitled(e, c, tool) && !e.policies[tool].destructive ==> HandleOn(e, es, c) == Handled(es, Allowed))
  {
    if c.req.subject.Some? && c.req.subject.value in e.policies { EntitledIs(e, c, c.req.subject.value); }
  }

  /** A call reaches the gate exactly when it is of a listed destructive tool, by a
      caller entitled to it who, if stateless, has a user name. */
  lemma GatedExactlyWhen(e: Engine, c: Call)
    ensures Gated(e, c) <==>
            exists tool :: && c.req.subject == Some(tool) && tool != [] && tool in e.policies
                           && e.policies[tool].destructive && Entitled(e, c, tool)
                           && (c.ctx.stateless ==> c.ctx.user != None && c.ctx.user != Some([]))
  {
    if c.req.subject.Some? && c.req.subject.value in e.policies { EntitledIs(e, c, c.req.subject.value); }
  }

  /** A destructive tool called by who is entitled but, stateless, has no user name. */
  lemma NamelessDenied(e: Engine, es: Entries, c: Call, tool: Text)
    requires c.req.subject == Some(tool) && tool in e.policies && e.policies[tool].destructive
    requires c.ctx.stateless && (c.ctx.user == None || c.ctx.user == Some([]))
    ensures HandleOn(e, es, c) == Handled(es, Denied)
  {
  }

  /** A text under the token's name is the token presented, unless empty; a call
      without one presents none, nor one with a false value there. */
  lemma PresentedExactly(prims: Prims, c: Call, fs: Fields)
    requires c.req.arguments == Obj(fs)
    ensures forall t :: Get(fs, Lit("_confirm_token")) == Some(Str(t)) ==>
              Presented(prims, c) == if t == [] then None else Some(t)
    ensures Get(fs, Lit("_confirm_token")) in
              {None, Some(Null), Some(Bool(false)), Some(Int(0)), Some(Arr(NoItems)), Some(Obj(NoFields))} ==>
              Presented(prims, c) == None
    ensures forall v :: Get(fs, Lit("_confirm_token")) == Some(v) && !v.Str? && Presented(prims, c) != None ==>
              Presented(prims, c) == Some(prims.str(v))
    ensures forall v :: Get(fs, Lit("_confirm_token")) == Some(v) && Presented(prims, c) == None ==>
              v in {Null, Bool(false), Int(0), Str([]), Arr(NoItems), Obj(NoFields)}
  {
  }

  /** At the gate without a token, a call is held up with one, unless it would be
      new where its owner, its principal or the store has no room. */
  lemma HeldUpExactlyWhen(e: Engine, es: Entries, c: Call)
    requires Gated(e, c) && Presented(e.prims, c).None?
    ensures var live := set k | k in es && es[k].expiry > c.now;
            var owned := set k | k in live && es[k].owner == OwnerLabel(c.ctx);
            var own := set k | k in live && es[k].principal == PrincipalLabel(c.ctx);
            var room := KeyOf(e, c) in live
                        || (|owned| < e.limits.maxPerOwner && |own| < e.limits.maxPerPrincipal
                            && |live| < e.limits.maxEntries);
            && HandleOn(e, es, c).outcome == (if room then Pending(c.newToken) else Denied)
            && HandleOn(e, es, c).entries.Keys == (if room then live + {KeyOf(e, c)} else live)
            && (room ==> HandleOn(e, es, c).entries[KeyOf(e, c)]
                         == Entry(c.newToken, c.asked + e.limits.ttl, OwnerLabel(c.ctx), PrincipalLabel(c.ctx)))
            && forall k :: k in live && k != KeyOf(e, c) ==> HandleOn(e, es, c).entries[k] == es[k]
  {
    IssuedExactlyWhen(e.limits, es, IssueFor(e, c));
  }

  lemma IssuedExactlyWhen(l: StoreLimits, es: Entries, q: IssueRequest)
    ensures var live := set k | k in es && es[k].expiry > q.now;
            var owned := set k | k in live && es[k].owner == q.owner;
            var own := set k | k in live && es[k].principal == q.principal;
            var room := q.key in live
                        || (|owned| < l.maxPerOwner && |own| < l.maxPerPrincipal && |live| < l.maxEntries);
            && IssueOn(l, es, q).ok == room
            && IssueOn(l, es, q).entries.Keys == (if room then live + {q.key} else live)
            && (room ==> IssueOn(l, es, q).entries[q.key] == Entry(q.token, q.asked + l.ttl, q.owner, q.principal))
            && forall k :: k in live && k != q.key ==> IssueOn(l, es, q).entries[k] == es[k]
  {
    var kept := Unexpired(es, q.now);
    var live := set k | k in es && es[k].expiry > q.now;
    assert kept.Keys == live && |kept| == |kept.Keys|;
    assert OwnedBy(kept, q.owner) == set k | k in live && es[k].owner == q.owner;
    assert ByPrincipal(kept, q.principal) == set k | k in live && es[k].principal == q.principal;
  }

  /** With a token, a call gets through exactly when it is the one pending under its
      key, not expired; used or expired it is gone, and nothing else changes. */
  lemma TokenDecides(e: Engine, es: Entries, c: Call, t: Text)
    requires Gated(e, c) && Presented(e.prims, c) == Some(t)
    ensures var k := KeyOf(e, c);
            var right := k in es && es[k].token == t && c.now <= es[k].expiry;
            && HandleOn(e, es, c).outcome == (if right then Allowed else Denied)
            && HandleOn(e, es, c).entries == if right || (k in es && c.now > es[k].expiry) then es - {k} else es
  {
  }

  // ----- who shares a quota -----

  /** One owner: the session; stateless, the user and the tenant. */
  lemma OwnersShareExactlyWhen(c: Context, d: Context)
    ensures OwnerLabel(c) == OwnerLabel(d) <==> SameCaller(c, d)
  {
    OwnerMerges(c);
    OwnerMerges(d);
    OwnerPrintable(c);
    OwnerPrintable(d);
    PrintAlikeExactlyWhen(OwnerJson(c), OwnerJson(d));
    Tags();
    OrNullInjective(MergedText(c.user), MergedText(d.user));
    OrNullInjective(MergedText(c.tenant), MergedText(d.tenant));
  }

  lemma OwnerPrintable(c: Context)
    ensures Printable(OwnerJson(c))
  {
    MergeNoItems();
    OrNullMerges(c.user);
    OrNullMerges(c.tenant);
    var last := Item(OrNull(c.tenant), NoItems);
    MergeOneItem(OrNull(c.tenant), NoItems);
    MergeOneItem(OrNull(c.user), last);
    MergeOneItem(Str(STATELESS), Item(OrNull(c.user), last));
    MergeOneItem(Str(c.session), NoItems);
    MergeOneItem(Str(SESSION), Item(Str(c.session), NoItems));
  }

  /** One principal: user and tenant, in whatever session; all without a user name
      are one. */
  lemma PrincipalsShareExactlyWhen(c: Context, d: Context)
    ensures PrincipalLabel(c) == PrincipalLabel(d) <==>
            var nameless := c.user == None || c.user == Some([]);
            && nameless == (d.user == None || d.user == Some([]))
            && (!nameless ==> MergedText(c.user) == MergedText(d.user) && MergedText(c.tenant) == MergedText(d.tenant))
  {
    UserMerges(c);
    UserMerges(d);
    PrintAlikeExactlyWhen(UserJson(c), UserJson(d));
    OrNullInjective(MergedText(c.user), MergedText(d.user));
    OrNullInjective(MergedText(c.tenant), MergedText(d.tenant));
    assert Dumps(UserJson(c))[0] == '[' as int == Dumps(UserJson(d))[0] && Lit("anonymous")[0] == 'a' as int;
  }

  function UserJson(c: Context): Json { Arr(Item(OrNull(c.user), Item(OrNull(c.tenant), NoItems))) }

  lemma UserMerges(c: Context)
    ensures Printable(UserJson(c))
    ensures MergeJson(UserJson(c))
            == Arr(Item(OrNull(MergedText(c.user)), Item(OrNull(MergedText(c.tenant)), NoItems)))
  {
    MergeNoItems();
    OrNullMerges(c.user);
    OrNullMerges(c.tenant);
    MergeOneItem(OrNull(c.tenant), NoItems);
    MergeOneItem(OrNull(c.user), Item(OrNull(c.tenant), NoItems));
  }
}
