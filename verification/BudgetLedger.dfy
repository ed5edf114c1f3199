/** The resource engine: the bounded least-recently-used ledger of session
    budgets, the limits on a request, and the zombie reaper. */
module BudgetLedger {
  import opened Common
  import opened JsonText
  import opened BracketDepth
  import opened JsonDepth

  const MAX_BUDGET_ENTRIES := 50_000

  datatype Budget = Budget(callsUsed: nat, wallStart: real, loopDepth: int)

  function Increment(b: Budget): Budget { b.(callsUsed := b.callsUsed + 1) }

  datatype Limits = Limits(maxCalls: int, maxWall: real, maxLoop: int, maxArgDepth: int, heartbeat: real)

  /** The ordered ledger: keys from least to most recently used, and values. */
  datatype Ledger = Ledger(order: seq<string>, budgets: map<string, Budget>)

  const EMPTY := Ledger([], map[])

  function Remove(order: seq<string>, s: string): seq<string> {
    if order == [] then []
    else if order[0] == s then order[1..]
    else [order[0]] + Remove(order[1..], s)
  }

  function MoveToEnd(order: seq<string>, s: string): seq<string> { Remove(order, s) + [s] }

  /** A hit marks the session as recently used. */
  function Restored(l: Ledger, s: string): Ledger {
    if s in l.budgets then l.(order := MoveToEnd(l.order, s)) else l
  }

  function EffectiveBudget(l: Ledger, s: string, given: Budget): Budget {
    if s in l.budgets then l.budgets[s] else given
  }

  function PopOldest(l: Ledger): Ledger
    requires l.order != []
  {
    Ledger(l.order[1..], l.budgets - {l.order[0]})
  }

  function Saved(l: Ledger, s: string, b: Budget): Ledger {
    var more := Ledger(MoveToEnd(l.order, s), l.budgets[s := b]);
    if |more.order| > MAX_BUDGET_ENTRIES then PopOldest(more) else more
  }

  function Ended(l: Ledger, s: string): Ledger { Ledger(Remove(l.order, s), l.budgets - {s}) }

  predicate NoDuplicates(order: seq<string>) {
    forall i, j :: 0 <= i < j < |order| ==> order[i] != order[j]
  }

  ghost predicate WellFormed(l: Ledger) {
    && NoDuplicates(l.order)
    && (forall s: string {:trigger s in l.order} {:trigger s in l.budgets} :: s in l.order <==> s in l.budgets)
    && |l.order| <= MAX_BUDGET_ENTRIES
  }

  // ----- ordering lemmas -----

  lemma {:induction false} RemoveElements(order: seq<string>, s: string)
    requires NoDuplicates(order)
    ensures forall t: string {:trigger t in order} :: t in Remove(order, s) <==> t in order && t != s
    ensures NoDuplicates(Remove(order, s))
    ensures |Remove(order, s)| == |order| - if s in order then 1 else 0
    decreases |order|
  {
    if order != [] {
      assert order == [order[0]] + order[1..];
      if order[0] != s {
        RemoveElements(order[1..], s);
        assert order[0] !in order[1..];
      }
    }
  }

  lemma MoveToEndElements(order: seq<string>, s: string)
    requires NoDuplicates(order)
    ensures forall t: string {:trigger t in order} :: t in MoveToEnd(order, s) <==> t in order || t == s
    ensures NoDuplicates(MoveToEnd(order, s))
    ensures |MoveToEnd(order, s)| == |order| + if s in order then 0 else 1
  {
    RemoveElements(order, s);
  }

  lemma RestoredWellFormed(l: Ledger, s: string)
    requires WellFormed(l)
    ensures WellFormed(Restored(l, s))
  {
    MoveToEndElements(l.order, s);
  }

  lemma SavedWellFormed(l: Ledger, s: string, b: Budget)
    requires WellFormed(l)
    ensures WellFormed(Saved(l, s, b))
  {
    MoveToEndElements(l.order, s);
  }

  lemma EndedWellFormed(l: Ledger, s: string)
    requires WellFormed(l)
    ensures WellFormed(Ended(l, s))
  {
    RemoveElements(l.order, s);
  }

  // ----- requests -----

  datatype Request = Request(content: bool, arguments: Option<Json>)

  datatype Reply = Proceed(budget: Budget) | CallsExhausted | WallExceeded | LoopTooDeep | ArgumentsTooDeep

  /** The depth of the arguments as the server decodes them; None when a string
      argument is too deep to decode. */
  function ArgumentDepth(loads: Loads, args: Json): Option<nat> {
    if args.Obj? && SomeTooDeep(args.fields) then None
    else if !args.Obj? then Some(ValueDepth(args))
    else
      var decoded := DecodedOf(loads, args.fields);
      Some(if decoded.NoFields? then ValueDepth(args) else Max(ValueDepth(args), 1 + FieldsDepth(decoded)))
  }

  function Judged(l: Limits, loads: Loads, b: Budget, q: Request, now: real): Reply {
    if b.callsUsed >= l.maxCalls then CallsExhausted
    else if now - b.wallStart > l.maxWall then WallExceeded
    else if b.loopDepth > l.maxLoop then LoopTooDeep
    else if q.arguments.Some? && (ArgumentDepth(loads, q.arguments.value).None?
                                  || ArgumentDepth(loads, q.arguments.value).value > l.maxArgDepth)
    then ArgumentsTooDeep
    else Proceed(Increment(b))
  }

  datatype Handled = Handled(ledger: Ledger, reply: Reply)

  function StartOn(l: Ledger, s: string, given: Budget): Ledger {
    Saved(Restored(l, s), s, EffectiveBudget(l, s, given))
  }

  function RequestOn(lim: Limits, loads: Loads, l: Ledger, s: string, given: Budget, q: Request, now: real): Handled {
    if !q.content then Handled(l, Proceed(given))
    else
      var reply := Judged(lim, loads, EffectiveBudget(l, s, given), q, now);
      Handled(if reply.Proceed? then Saved(Restored(l, s), s, reply.budget) else Restored(l, s), reply)
  }

  class ResourceEngine {
    const limits: Limits
    const loads: Loads
    var order: seq<string>
    var sessionBudgets: map<string, Budget>
    var lastSeen: map<string, real>

    constructor (limits: Limits, loads: Loads)
      ensures this.limits == limits && this.loads == loads
      ensures State() == EMPTY && lastSeen == map[] && Valid()
    {
      this.limits, this.loads := limits, loads;
      order, sessionBudgets, lastSeen := [], map[], map[];
    }

    function State(): Ledger
      reads this
    {
      Ledger(order, sessionBudgets)
    }

    ghost predicate Valid()
      reads this
    {
      WellFormed(State())
    }

    method RestoreBudget(s: string, given: Budget) returns (b: Budget)
      requires Valid()
      modifies `order
      ensures Valid() && State() == Restored(old(State()), s) && b == EffectiveBudget(old(State()), s, given)
    {
      RestoredWellFormed(State(), s);
      b := given;
      if s in sessionBudgets {
        b := sessionBudgets[s];
        order := MoveToEnd(order, s);
      }
    }

    method SaveBudget(s: string, b: Budget)
      requires Valid()
      modifies `order, `sessionBudgets
      ensures Valid() && State() == Saved(old(State()), s, b)
    {
      SavedWellFormed(State(), s, b);
      MoveToEndElements(order, s);
      sessionBudgets := sessionBudgets[s := b];
      order := MoveToEnd(order, s);
      ghost var more := State();
      while |order| > MAX_BUDGET_ENTRIES
        invariant |more.order| <= MAX_BUDGET_ENTRIES + 1
        invariant State() == more || (|more.order| > MAX_BUDGET_ENTRIES && State() == PopOldest(more))
        decreases |order|
      {
        sessionBudgets := sessionBudgets - {order[0]};
        order := order[1..];
      }
    }

    method OnSessionStart(s: string, given: Budget, now: real) returns (b: Budget)
      requires Valid()
      modifies this
      ensures Valid() && State() == StartOn(old(State()), s, given)
      ensures b == EffectiveBudget(old(State()), s, given) && lastSeen == old(lastSeen)[s := now]
    {
      lastSeen := lastSeen[s := now];
      b := RestoreBudget(s, given);
      SaveBudget(s, b);
    }

    /** None is a string argument too deep to decode. */
    method DepthOfArguments(args: Json) returns (depth: Option<nat>)
      ensures depth == ArgumentDepth(loads, args)
    {
      var d: nat := DepthByStack(args);
      var decoded := DecodedArguments(loads, args);
      if decoded.None? {
        return None;
      }
      var rest := decoded.value;
      while rest.Field?
        invariant Max(d, if rest.Field? then 1 + FieldsDepth(rest) else 0)
                  == Max(ValueDepth(args), if decoded.value.Field? then 1 + FieldsDepth(decoded.value) else 0)
        decreases rest
      {
        var inner := DepthByStack(rest.value);
        d := Max(d, 1 + inner);
        rest := rest.rest;
      }
      depth := Some(d);
    }

    method OnRequest(s: string, given: Budget, q: Request, now: real) returns (reply: Reply)
      requires Valid()
      modifies this
      ensures Valid() && Handled(State(), reply) == RequestOn(limits, loads, old(State()), s, given, q, now)
      ensures lastSeen == old(lastSeen)[s := now]
    {
      lastSeen := lastSeen[s := now];
      if !q.content {
        return Proceed(given);
      }
      var budget := RestoreBudget(s, given);
      if budget.callsUsed >= limits.maxCalls {
        return CallsExhausted;
      }
      if now - budget.wallStart > limits.maxWall {
        return WallExceeded;
      }
      if budget.loopDepth > limits.maxLoop {
        return LoopTooDeep;
      }
      if q.arguments.Some? {
        var depth := DepthOfArguments(q.arguments.value);
        if depth.None? || depth.value > limits.maxArgDepth {
          return ArgumentsTooDeep;
        }
      }
      SaveBudget(s, Increment(budget));
      reply := Proceed(Increment(budget));
    }

    method OnSessionEnd(s: string)
      requires Valid()
      modifies this
      ensures Valid() && State() == Ended(old(State()), s) && lastSeen == old(lastSeen) - {s}
    {
      EndedWellFormed(State(), s);
      lastSeen := lastSeen - {s};
      order, sessionBudgets := Remove(order, s), sessionBudgets - {s};
    }

    /** Sessions idle for longer than the heartbeat are forgotten as live, and
        their budgets are not. */
    method ReapZombieSessions(now: real) returns (zombies: set<string>)
      requires Valid()
      modifies `lastSeen
      ensures Valid() && State() == old(State())
      ensures zombies == set s | s in old(lastSeen) && now - old(lastSeen)[s] > limits.heartbeat
      ensures lastSeen == old(lastSeen) - zombies
    {
      zombies := set s | s in lastSeen && now - lastSeen[s] > limits.heartbeat;
      var todo := zombies;
      while todo != {}
        invariant todo <= zombies && lastSeen == old(lastSeen) - (zombies - todo)
        decreases todo
      {
        var s :| s in todo;
        lastSeen := lastSeen - {s};
        todo := todo - {s};
      }
    }
  }
}
