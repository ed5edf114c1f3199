/** Confirmation of destructive tools: the pending-token store, the key tokens
    are bound to, and the two-stage gate of the authorization engine. */
module ConfirmTokens {
  import opened Common
  import opened Text
  import opened JsonText
  import opened JsonMerge
  import opened Dict

  // ----- bindings and keys -----

  /** What a confirmation is bound to, besides the tool. */
  datatype Binding =
    | Session(session: Text, digest: Text)
    | Stateless(user: Text, tenant: Option<Text>, digest: Text)

  const SESSION: Text := Lit("session")
  const STATELESS: Text := Lit("stateless")
  const COLONS: Text := Lit("::")
  const CONFIRM_TOKEN: Text := Lit("_confirm_token")

  function OrNull(t: Option<Text>): Json { if t.None? then Null else Str(t.value) }

  function BindingJson(b: Binding): Json {
    match b
    case Session(s, d) => Arr(Item(Str(SESSION), Item(Str(s), Item(Str(d), NoItems))))
    case Stateless(u, t, d) => Arr(Item(Str(STATELESS), Item(Str(u), Item(OrNull(t), Item(Str(d), NoItems)))))
  }

  function BindingText(b: Binding): Text { Dumps(BindingJson(b)) }

  function MakeKey(binding: Text, tool: Text): Text { binding + COLONS + tool }

  /** The binding with every split surrogate pair in its texts joined. */
  function Merged(b: Binding): Binding {
    match b
    case Session(s, d) => Session(Merge(s), Merge(d))
    case Stateless(u, t, d) => Stateless(Merge(u), MergedText(t), Merge(d))
  }

  function MergedText(t: Option<Text>): Option<Text> { if t.None? then None else Some(Merge(t.value)) }

  lemma OrNullMerges(t: Option<Text>)
    ensures MergeJson(OrNull(t)) == OrNull(MergedText(t)) && Printable(OrNull(t))
  {
  }

  lemma Tags()
    ensures Merge(SESSION) == SESSION && Merge(STATELESS) == STATELESS && SESSION != STATELESS
  {
    assert |SESSION| == 7 && |STATELESS| == 9;
    assert NoSplitPair(SESSION) && NoSplitPair(STATELESS);
    MergeFixed(SESSION);
    MergeFixed(STATELESS);
  }

  lemma BindingMerges(b: Binding)
    ensures Printable(BindingJson(b)) && MergeJson(BindingJson(b)) == BindingJson(Merged(b))
  {
    Tags();
    var last := Item(Str(b.digest), NoItems);
    MergeNoItems();
    MergeOneItem(Str(b.digest), NoItems);
    match b
    case Session(s, _) =>
      MergeOneItem(Str(s), last);
      MergeOneItem(Str(SESSION), Item(Str(s), last));
    case Stateless(u, t, _) =>
      OrNullMerges(t);
      MergeOneItem(OrNull(t), last);
      MergeOneItem(Str(u), Item(OrNull(t), last));
      MergeOneItem(Str(STATELESS), Item(Str(u), Item(OrNull(t), last)));
  }

  lemma BindingJsonInjective(b: Binding, c: Binding)
    requires BindingJson(b) == BindingJson(c)
    ensures b == c
  {
    Tags();
    OrNullInjective(if b.Session? then None else b.tenant, if c.Session? then None else c.tenant);
    var first := BindingJson(b).items.tail;
    assert first == BindingJson(c).items.tail;
    assert first.tail.head == if b.Session? then Str(b.digest) else OrNull(b.tenant);
  }

  lemma OrNullInjective(t: Option<Text>, u: Option<Text>)
    ensures OrNull(t) == OrNull(u) ==> t == u
  {
  }

  /** Mode, session or user and tenant, digest and tool can all be read back from
      the key, but for whether a surrogate pair was one code point or two: the
      array's text ends where its bracket closes, so no tool name can shift the
      boundary. */
  lemma KeyInjective(b: Binding, tool: Text, c: Binding, tool': Text)
    ensures MakeKey(BindingText(b), tool) == MakeKey(BindingText(c), tool')
            <==> Merged(b) == Merged(c) && tool == tool'
  {
    BindingMerges(b);
    BindingMerges(c);
    Assoc(BindingText(b), COLONS, tool);
    Assoc(BindingText(c), COLONS, tool');
    assert !WordChar((COLONS + tool)[0]) && !WordChar((COLONS + tool')[0]);
    ReadingUpToMerge(BindingJson(b), COLONS + tool, BindingJson(c), COLONS + tool');
    assert tool == (COLONS + tool)[2..] && tool' == (COLONS + tool')[2..];
    if BindingJson(Merged(b)) == BindingJson(Merged(c)) { BindingJsonInjective(Merged(b), Merged(c)); }
  }

  /** Two user names that print alike: one key for two users. */
  lemma SplitUsersShareKey(tenant: Option<Text>, digest: Text, tool: Text)
    ensures MakeKey(BindingText(Stateless(SPLIT, tenant, digest)), tool)
            == MakeKey(BindingText(Stateless(JOINED, tenant, digest)), tool)
    ensures SPLIT != JOINED
  {
    SplitMerges();
    KeyInjective(Stateless(SPLIT, tenant, digest), tool, Stateless(JOINED, tenant, digest), tool);
  }

  const SPLIT: Text := [0xD83D, 0xDE00]
  const JOINED: Text := [0x1F600]

  lemma SplitMerges()
    ensures Merge(SPLIT) == JOINED == Merge(JOINED)
  {
    assert Merge([]) == [] && SPLIT[2..] == [] && JOINED[1..] == [];
    assert Merge(SPLIT) == [0x1F600] + Merge(SPLIT[2..]);
    assert Merge(JOINED) == [0x1F600] + Merge(JOINED[1..]);
  }

  // ----- the token store -----

  datatype Entry = Entry(token: Text, expiry: real, owner: Text, principal: Text)

  type Entries = map<Text, Entry>

  datatype StoreLimits = StoreLimits(ttl: real, maxEntries: int, maxPerOwner: int, maxPerPrincipal: int)

  datatype IssueRequest = IssueRequest(key: Text, owner: Text, principal: Text, token: Text,
                                       asked: real, now: real)

  function Unexpired(es: Entries, now: real): Entries { map k | k in es && es[k].expiry > now :: es[k] }

  function OwnedBy(es: Entries, owner: Text): set<Text> { set k | k in es && es[k].owner == owner }

  function ByPrincipal(es: Entries, principal: Text): set<Text> { set k | k in es && es[k].principal == principal }

  datatype Issuing = Issuing(entries: Entries, ok: bool)

  predicate NoRoom(l: StoreLimits, es: Entries, q: IssueRequest) {
    q.key !in es && (|| |OwnedBy(es, q.owner)| >= l.maxPerOwner
                     || |ByPrincipal(es, q.principal)| >= l.maxPerPrincipal
                     || |es| >= l.maxEntries)
  }

  function IssueOn(l: StoreLimits, es: Entries, q: IssueRequest): Issuing {
    var live := Unexpired(es, q.now);
    if NoRoom(l, live, q) then Issuing(live, false)
    else Issuing(live[q.key := Entry(q.token, q.asked + l.ttl, q.owner, q.principal)], true)
  }

  datatype Consuming = Consuming(entries: Entries, ok: bool)

  function ConsumeOn(es: Entries, key: Text, presented: Text, now: real): Consuming {
    if key !in es then Consuming(es, false)
    else if now > es[key].expiry then Consuming(es - {key}, false)
    else if es[key].token == presented then Consuming(es - {key}, true)
    else Consuming(es, false)
  }

  class TokenStore {
    const limits: StoreLimits
    var entries: Entries

    constructor (limits: StoreLimits)
      ensures this.limits == limits && entries == map[]
    {
      this.limits := limits;
      entries := map[];
    }

    /** asked is the reading the expiry is counted from, now the one in the lock. */
    method Issue(binding: Text, tool: Text, owner: Text, principal: Text, token: Text, asked: real, now: real)
      returns (ok: bool)
      modifies this
      ensures var who := if owner == [] then binding else owner;
              Issuing(entries, ok) == IssueOn(limits, old(entries),
                IssueRequest(MakeKey(binding, tool), who, principal, token, asked, now))
    {
      var expiry := asked + limits.ttl;
      var key := MakeKey(binding, tool);
      var expired := set k | k in entries && entries[k].expiry <= now;
      var live := entries - expired;
      assert live == Unexpired(entries, now);
      entries := live;
      var who := if owner == [] then binding else owner;
      if key !in entries && (|| |OwnedBy(entries, who)| >= limits.maxPerOwner
                             || |ByPrincipal(entries, principal)| >= limits.maxPerPrincipal)
      {
        return false;
      }
      if key !in entries && |entries| >= limits.maxEntries {
        return false;
      }
      entries := entries[key := Entry(token, expiry, who, principal)];
      ok := true;
    }

    method Consume(binding: Text, tool: Text, presented: Text, now: real) returns (valid: bool)
      modifies this
      ensures Consuming(entries, valid) == ConsumeOn(old(entries), MakeKey(binding, tool), presented, now)
    {
      var key := MakeKey(binding, tool);
      if key !in entries {
        return false;
      }
      var entry := entries[key];
      if now > entry.expiry {
        entries := entries - {key};
        return false;
      }
      valid := entry.token == presented;
      if valid {
        entries := entries - {key};
      }
    }
  }

  // ----- the gate -----

  datatype Context = Context(session: Text, user: Option<Text>, tenant: Option<Text>, scopes: set<Text>,
                             stateless: bool)

  datatype Policy = Policy(requiredScopes: set<Text>, userOnly: bool, tenantIsolated: bool, destructive: bool)

  /** A content-bearing request: the name or uri it carries, and its arguments,
      an empty dict when absent. */
  datatype Request = Request(subject: Option<Text>, arguments: Json)

  /** The digest of the arguments, and how a token that is not text prints. */
  datatype Prims = Prims(digest: Json -> Text, str: Json -> Text)

  datatype Engine = Engine(policies: map<Text, Policy>, defaultDeny: bool, limits: StoreLimits, prims: Prims)

  datatype Call = Call(ctx: Context, req: Request, newToken: Text, asked: real, now: real)

  datatype Outcome = Allowed | Denied | Pending(token: Text)

  function Argument(req: Request, k: Text): Json {
    if req.arguments.Obj? && Get(req.arguments.fields, k).Some? then Get(req.arguments.fields, k).value else Null
  }

  /** Python truth of a JSON value; a float literal counts as true. */
  predicate Falsy(v: Json) {
    v == Null || v == Bool(false) || v == Int(0) || v == Str([]) || v == Arr(NoItems) || v == Obj(NoFields)
  }

  predicate HasUser(ctx: Context) { ctx.user.Some? && ctx.user.value != [] }

  /** Everything that is checked before a destructive call is held up. */
  predicate PolicyAllows(p: Policy, c: Call) {
    && p.requiredScopes <= c.ctx.scopes
    && (p.userOnly ==> HasUser(c.ctx))
    && (p.tenantIsolated ==>
          c.ctx.tenant.Some? && Argument(c.req, Lit("tenant_id")) == Str(c.ctx.tenant.value))
  }

  function CleanArguments(v: Json): Json { if v.Obj? then Obj(Without(v.fields, CONFIRM_TOKEN)) else v }

  /** None is the refusal of a stateless caller without a principal. */
  function BindingOf(prims: Prims, c: Call): Option<Binding> {
    var digest := prims.digest(CleanArguments(c.req.arguments));
    if !c.ctx.stateless then Some(Session(c.ctx.session, digest))
    else if !HasUser(c.ctx) then None
    else Some(Stateless(c.ctx.user.value, c.ctx.tenant, digest))
  }

  function OwnerJson(ctx: Context): Json {
    if ctx.stateless then Arr(Item(Str(STATELESS), Item(OrNull(ctx.user), Item(OrNull(ctx.tenant), NoItems))))
    else Arr(Item(Str(SESSION), Item(Str(ctx.session), NoItems)))
  }

  function OwnerLabel(ctx: Context): Text { Dumps(OwnerJson(ctx)) }

  function PrincipalLabel(ctx: Context): Text {
    if HasUser(ctx) then Dumps(Arr(Item(OrNull(ctx.user), Item(OrNull(ctx.tenant), NoItems)))) else Lit("anonymous")
  }

  /** The token text a call presents, None when it presents none. */
  function Presented(prims: Prims, c: Call): Option<Text> {
    var v := Argument(c.req, CONFIRM_TOKEN);
    if Falsy(v) then None else if v.Str? then Some(v.s) else Some(prims.str(v))
  }

  /** A call that reaches the destructive gate with something to bind to. */
  predicate Gated(e: Engine, c: Call) {
    && c.req.subject.Some? && c.req.subject.value != [] && c.req.subject.value in e.policies
    && e.policies[c.req.subject.value].destructive
    && PolicyAllows(e.policies[c.req.subject.value], c)
    && BindingOf(e.prims, c).Some?
  }

  function KeyOf(e: Engine, c: Call): Text
    requires Gated(e, c)
  {
    MakeKey(BindingText(BindingOf(e.prims, c).value), c.req.subject.value)
  }

  function IssueFor(e: Engine, c: Call): IssueRequest
    requires Gated(e, c)
  {
    IssueRequest(KeyOf(e, c), OwnerLabel(c.ctx), PrincipalLabel(c.ctx), c.newToken, c.asked, c.now)
  }

  datatype Handled = Handled(entries: Entries, outcome: Outcome)

  /** What a content-bearing request does to the store, and its outcome. */
  function HandleOn(e: Engine, es: Entries, c: Call): Handled {
    if c.req.subject.None? || c.req.subject.value == [] then Handled(es, Denied)
    else if c.req.subject.value !in e.policies then Handled(es, if e.defaultDeny then Denied else Allowed)
    else
      var p := e.policies[c.req.subject.value];
      if !PolicyAllows(p, c) then Handled(es, Denied)
      else if !p.destructive then Handled(es, Allowed)
      else if BindingOf(e.prims, c).None? then Handled(es, Denied)
      else if Presented(e.prims, c).None? then
        var i := IssueOn(e.limits, es, IssueFor(e, c));
        Handled(i.entries, if i.ok then Pending(c.newToken) else Denied)
      else
        var used := ConsumeOn(es, KeyOf(e, c), Presented(e.prims, c).value, c.now);
        Handled(used.entries, if used.ok then Allowed else Denied)
  }

  class AuthzEngine {
    const engine: Engine
    const store: TokenStore

    constructor (engine: Engine)
      ensures this.engine == engine && store.limits == engine.limits
      ensures store.entries == map[] && fresh(store)
    {
      this.engine := engine;
      store := new TokenStore(engine.limits);
    }

    method OnRequest(c: Call) returns (outcome: Outcome)
      requires store.limits == engine.limits
      modifies store
      ensures Handled(store.entries, outcome) == HandleOn(engine, old(store.entries), c)
    {
      if c.req.subject.None? || c.req.subject.value == [] {
        return Denied;
      }
      var tool := c.req.subject.value;
      if tool !in engine.policies {
        return if engine.defaultDeny then Denied else Allowed;
      }
      var policy := engine.policies[tool];
      if !PolicyAllows(policy, c) {
        return Denied;
      }
      if policy.destructive {
        var binding := BindingOf(engine.prims, c);
        if binding.None? {
          return Denied;
        }
        var presented := Presented(engine.prims, c);
        if presented.None? {
          OwnerLabelled(c.ctx);
          var ok := store.Issue(BindingText(binding.value), tool, OwnerLabel(c.ctx), PrincipalLabel(c.ctx),
                                c.newToken, c.asked, c.now);
          return if ok then Pending(c.newToken) else Denied;
        }
        var ok := store.Consume(BindingText(binding.value), tool, presented.value, c.now);
        if !ok {
          return Denied;
        }
      }
      outcome := Allowed;
    }
  }

  lemma OwnerLabelled(ctx: Context)
    ensures OwnerLabel(ctx) != []
  {
  }
}
