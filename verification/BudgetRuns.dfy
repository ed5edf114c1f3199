/** Whole runs of the resource engine, whatever contexts the adapter rebuilds:
    how many calls one ledger entry accepts, and how an entry can be lost. */
module BudgetRuns {
  import opened Common
  import opened BracketDepth
  import opened BudgetLedger

  datatype Event =
    | Start(s: string, given: Budget)
    | Ask(s: string, given: Budget, q: Request, now: real)
    | End(s: string)
    | Reap(now: real)

  ghost function Next(lim: Limits, loads: Loads, l: Ledger, ev: Event): Ledger {
    match ev
    case Start(s, given) => StartOn(l, s, given)
    case Ask(s, given, q, now) => RequestOn(lim, loads, l, s, given, q, now).ledger
    case End(s) => Ended(l, s)
    case Reap(_) => l
  }

  ghost function LedgerAfter(lim: Limits, loads: Loads, evs: seq<Event>, n: nat): Ledger
    requires n <= |evs|
  {
    if n == 0 then EMPTY else Next(lim, loads, LedgerAfter(lim, loads, evs, n - 1), evs[n - 1])
  }

  ghost predicate Has(lim: Limits, loads: Loads, evs: seq<Event>, n: nat, s: string)
    requires n <= |evs|
  {
    s in LedgerAfter(lim, loads, evs, n).budgets
  }

  /** A content-bearing call of session s that is let through. */
  predicate AcceptsCall(lim: Limits, loads: Loads, l: Ledger, ev: Event, s: string) {
    ev.Ask? && ev.s == s && ev.q.content && RequestOn(lim, loads, l, s, ev.given, ev.q, ev.now).reply.Proceed?
  }

  /** How many of the events lo..hi are accepted calls of s. */
  ghost function AcceptedCalls(lim: Limits, loads: Loads, evs: seq<Event>, lo: nat, hi: nat, s: string): nat
    requires lo <= hi <= |evs|
    decreases hi
  {
    if lo == hi then 0
    else AcceptedCalls(lim, loads, evs, lo, hi - 1, s)
         + if AcceptsCall(lim, loads, LedgerAfter(lim, loads, evs, hi - 1), evs[hi - 1], s) then 1 else 0
  }

  // ----- accounting -----

  lemma {:induction false} AlwaysWellFormed(lim: Limits, loads: Loads, evs: seq<Event>, n: nat)
    requires n <= |evs|
    ensures WellFormed(LedgerAfter(lim, loads, evs, n))
    decreases n
  {
    if n > 0 {
      AlwaysWellFormed(lim, loads, evs, n - 1);
      NextWellFormed(lim, loads, LedgerAfter(lim, loads, evs, n - 1), evs[n - 1]);
    }
  }

  lemma NextWellFormed(lim: Limits, loads: Loads, l: Ledger, ev: Event)
    requires WellFormed(l)
    ensures WellFormed(Next(lim, loads, l, ev))
  {
    if ev.End? {
      EndedWellFormed(l, ev.s);
    } else if !ev.Reap? {
      RestoredWellFormed(l, ev.s);
      SavedWellFormed(Restored(l, ev.s), ev.s, EffectiveBudget(l, ev.s, ev.given));
      SavedWellFormed(Restored(l, ev.s), ev.s, Increment(EffectiveBudget(l, ev.s, ev.given)));
    }
  }

  /** What one event does to an entry it leaves in the ledger. */
  lemma StepOnEntry(lim: Limits, loads: Loads, l: Ledger, ev: Event, s: string)
    requires s in l.budgets && s in Next(lim, loads, l, ev).budgets
    ensures var b := l.budgets[s];
            Next(lim, loads, l, ev).budgets[s] == if AcceptsCall(lim, loads, l, ev, s) then Increment(b) else b
    ensures AcceptsCall(lim, loads, l, ev, s) ==> l.budgets[s].callsUsed < lim.maxCalls
  {
  }

  lemma StepCreates(lim: Limits, loads: Loads, l: Ledger, ev: Event, s: string)
    requires s !in l.budgets && s in Next(lim, loads, l, ev).budgets
    ensures !ev.End? && !ev.Reap? && ev.s == s
    ensures Next(lim, loads, l, ev).budgets[s] ==
            if AcceptsCall(lim, loads, l, ev, s) then Increment(ev.given) else ev.given
    ensures AcceptsCall(lim, loads, l, ev, s) ==> ev.given.callsUsed < lim.maxCalls
  {
  }

  /** From the event that creates a session's entry and for as long as the entry
      lasts: the entry counts exactly the accepted calls, on top of what the
      creating context claimed; at most max_calls are accepted; and the start of
      the wall clock and the loop depth stay those of the creating context. */
  lemma {:induction false} EntryAccounts(lim: Limits, loads: Loads, evs: seq<Event>, i: nat, n: nat, s: string)
    requires i < n <= |evs| && lim.maxCalls >= 0
    requires !Has(lim, loads, evs, i, s)
    requires Has(lim, loads, evs, n, s) && forall k :: i < k < n ==> Has(lim, loads, evs, k, s)
    ensures !evs[i].End? && !evs[i].Reap? && evs[i].s == s
    ensures var b, used := LedgerAfter(lim, loads, evs, n).budgets[s], AcceptedCalls(lim, loads, evs, i, n, s);
            && b == evs[i].given.(callsUsed := evs[i].given.callsUsed + used)
            && used <= lim.maxCalls && (used > 0 ==> b.callsUsed <= lim.maxCalls)
    decreases n
  {
    var l := LedgerAfter(lim, loads, evs, n - 1);
    if n == i + 1 {
      assert Has(lim, loads, evs, n, s);
      assert AcceptedCalls(lim, loads, evs, i, i, s) == 0;
      StepCreates(lim, loads, l, evs[i], s);
    } else {
      EntryAccounts(lim, loads, evs, i, n - 1, s);
      assert Has(lim, loads, evs, n - 1, s) && Has(lim, loads, evs, n, s);
      StepOnEntry(lim, loads, l, evs[n - 1], s);
    }
  }

  /** The budget a call is judged on is the ledger's, whatever the context says. */
  lemma LedgerWins(lim: Limits, loads: Loads, l: Ledger, s: string, given: Budget, rebuilt: Budget, q: Request,
                   now: real)
    requires s in l.budgets && q.content
    ensures RequestOn(lim, loads, l, s, given, q, now) == RequestOn(lim, loads, l, s, rebuilt, q, now)
    ensures l.budgets[s].callsUsed >= lim.maxCalls ==>
            RequestOn(lim, loads, l, s, given, q, now).reply == CallsExhausted
  {
  }

  // ----- how an entry is lost -----

  /** The sessions more recently used than s. */
  function Behind(order: seq<string>, s: string): seq<string> {
    if order == [] then []
    else if order[0] == s then order[1..]
    else Behind(order[1..], s)
  }

  /** The session an event marks as just used, if any. */
  function Touched(lim: Limits, loads: Loads, l: Ledger, ev: Event): Option<string> {
    if ev.Start? then Some(ev.s)
    else if ev.Ask? && ev.q.content
            && (ev.s in l.budgets || RequestOn(lim, loads, l, ev.s, ev.given, ev.q, ev.now).reply.Proceed?)
    then Some(ev.s)
    else None
  }

  /** Session t was touched by one of the events lo..hi. */
  ghost predicate TouchedIn(lim: Limits, loads: Loads, evs: seq<Event>, lo: nat, hi: nat, t: string)
    requires hi <= |evs|
  {
    exists k :: lo <= k < hi && Touched(lim, loads, LedgerAfter(lim, loads, evs, k), evs[k]) == Some(t)
  }

  lemma {:induction false} BehindLast(order: seq<string>, s: string)
    requires s !in order
    ensures Behind(order + [s], s) == []
    decreases |order|
  {
    if order != [] {
      assert (order + [s])[1..] == order[1..] + [s];
      BehindLast(order[1..], s);
    }
  }

  lemma {:induction false} BehindAfterRemove(order: seq<string>, s: string, t: string, x: string)
    requires s != t && s in order && NoDuplicates(order)
    ensures s in Remove(order, t)
    ensures x in Behind(Remove(order, t), s) ==> x in Behind(order, s)
    decreases |order|
  {
    if order[0] == s {
      assert Remove(order, t) == [s] + Remove(order[1..], t);
      RemoveElements(order[1..], t);
    } else if order[0] != t {
      assert order == [order[0]] + order[1..];
      BehindAfterRemove(order[1..], s, t, x);
      assert Remove(order, t)[1..] == Remove(order[1..], t);
    } else {
      assert order == [t] + order[1..];
      assert s in order[1..];
    }
  }

  lemma {:induction false} BehindAppend(order: seq<string>, s: string, t: string)
    requires s in order
    ensures Behind(order + [t], s) == Behind(order, s) + [t]
    decreases |order|
  {
    assert (order + [t])[1..] == order[1..] + [t];
    if order[0] != s {
      assert order == [order[0]] + order[1..];
      BehindAppend(order[1..], s, t);
    }
  }

  /** Marking t as used puts only t newly behind s. */
  lemma BehindAfterMove(order: seq<string>, s: string, t: string, x: string)
    requires s != t && s in order && NoDuplicates(order)
    ensures x in Behind(MoveToEnd(order, t), s) ==> x in Behind(order, s) || x == t
  {
    BehindAfterRemove(order, s, t, x);
    BehindAppend(Remove(order, t), s, t);
  }

  lemma BehindAfterPop(order: seq<string>, s: string)
    requires order != [] && order[0] != s
    ensures Behind(order[1..], s) == Behind(order, s)
  {
  }

  /** After one event that touches another session or none, whoever is behind s
      was behind s before, or was just touched. */
  lemma StepBehind(lim: Limits, loads: Loads, l: Ledger, ev: Event, s: string, x: string)
    requires WellFormed(l) && s in l.budgets && s in Next(lim, loads, l, ev).budgets
    requires Touched(lim, loads, l, ev) != Some(s)
    requires x in Behind(Next(lim, loads, l, ev).order, s)
    ensures x in Behind(l.order, s) || Touched(lim, loads, l, ev) == Some(x)
  {
    NextWellFormed(lim, loads, l, ev);
    if ev.End? {
      BehindAfterRemove(l.order, s, ev.s, x);
    } else if Touched(lim, loads, l, ev).Some? {
      RestoredBehind(l, s, ev.s, x);
      RestoredWellFormed(l, ev.s);
      SavedBehind(Restored(l, ev.s), s, ev.s, x);
    }
  }

  lemma RestoredBehind(l: Ledger, s: string, t: string, x: string)
    requires WellFormed(l) && s != t && s in l.order
    ensures s in Restored(l, t).order
    ensures x in Behind(Restored(l, t).order, s) ==> x in Behind(l.order, s) || x == t
  {
    BehindAfterMove(l.order, s, t, x);
    MoveToEndElements(l.order, t);
  }

  lemma SavedBehind(l: Ledger, s: string, t: string, x: string)
    requires WellFormed(l) && s != t && s in l.order
    ensures var moved := MoveToEnd(l.order, t);
            var kept := if |moved| > MAX_BUDGET_ENTRIES then moved[1..] else moved;
            s in kept && x in Behind(kept, s) ==> x in Behind(l.order, s) || x == t
  {
    var moved := MoveToEnd(l.order, t);
    BehindAfterMove(l.order, s, t, x);
    MoveToEndElements(l.order, t);
    FirstNotAgain(moved);
  }

  lemma FirstNotAgain(order: seq<string>)
    requires NoDuplicates(order) && order != []
    ensures order[0] !in order[1..]
  {
    assert forall i :: 0 <= i < |order| - 1 ==> order[1..][i] == order[i + 1];
  }

  lemma TouchIsLast(lim: Limits, loads: Loads, l: Ledger, ev: Event, s: string)
    requires WellFormed(l) && Touched(lim, loads, l, ev) == Some(s)
    ensures Behind(Next(lim, loads, l, ev).order, s) == []
  {
    RestoredWellFormed(l, s);
    var o := Restored(l, s).order;
    RemoveElements(l.order, s);
    BehindLast(Remove(l.order, s), s);
    RemoveElements(o, s);
    BehindLast(Remove(o, s), s);
    var moved := MoveToEnd(o, s);
    if |moved| > 1 {
      BehindAfterPop(moved, s);
    }
  }

  /** Event k was the last before n to touch s, which stayed in the ledger since. */
  ghost predicate IdleSince(lim: Limits, loads: Loads, evs: seq<Event>, k: nat, n: nat, s: string)
    requires k < n <= |evs|
  {
    && Touched(lim, loads, LedgerAfter(lim, loads, evs, k), evs[k]) == Some(s)
    && !TouchedIn(lim, loads, evs, k + 1, n, s)
    && forall m :: k < m <= n ==> Has(lim, loads, evs, m, s)
  }

  lemma NobodyBehindAtFirst(lim: Limits, loads: Loads, evs: seq<Event>, k: nat, s: string)
    requires k < |evs| && Touched(lim, loads, LedgerAfter(lim, loads, evs, k), evs[k]) == Some(s)
    ensures Behind(LedgerAfter(lim, loads, evs, k + 1).order, s) == []
  {
    AlwaysWellFormed(lim, loads, evs, k);
    TouchIsLast(lim, loads, LedgerAfter(lim, loads, evs, k), evs[k], s);
  }

  ghost predicate IsBehind(lim: Limits, loads: Loads, evs: seq<Event>, n: nat, s: string, x: string)
    requires n <= |evs|
  {
    x in Behind(LedgerAfter(lim, loads, evs, n).order, s)
  }

  /** While s stays in the ledger untouched, whoever is behind it has been
      touched since its own last touch. */
  lemma BehindWereTouched(lim: Limits, loads: Loads, evs: seq<Event>, k: nat, n: nat, s: string, x: string)
    requires k < n <= |evs| && IdleSince(lim, loads, evs, k, n, s) && IsBehind(lim, loads, evs, n, s, x)
    ensures TouchedIn(lim, loads, evs, k + 1, n, x)
  {
    IdleStart(lim, loads, evs, k, n, s);
    NotBehindAtFirst(lim, loads, evs, k, s, x);
    var m := FirstBehind(lim, loads, evs, k + 1, n, s, x);
    TouchedHere(lim, loads, evs, k, n, m, s, x);
  }

  lemma TouchedHere(lim: Limits, loads: Loads, evs: seq<Event>, k: nat, n: nat, m: nat, s: string, x: string)
    requires k + 1 < m <= n <= |evs| && IdleSince(lim, loads, evs, k, n, s)
    requires IsBehind(lim, loads, evs, m, s, x) && !IsBehind(lim, loads, evs, m - 1, s, x)
    ensures TouchedIn(lim, loads, evs, k + 1, n, x)
  {
    IdleAt(lim, loads, evs, k, n, m, s);
    BehindOneMore(lim, loads, evs, m, s, x);
  }

  /** Someone behind s now but not then got behind it by some event in between. */
  lemma {:induction false} FirstBehind(lim: Limits, loads: Loads, evs: seq<Event>, lo: nat, hi: nat, s: string,
                                       x: string) returns (m: nat)
    requires lo <= hi <= |evs| && IsBehind(lim, loads, evs, hi, s, x) && !IsBehind(lim, loads, evs, lo, s, x)
    ensures lo < m <= hi && IsBehind(lim, loads, evs, m, s, x) && !IsBehind(lim, loads, evs, m - 1, s, x)
    decreases hi
  {
    m := hi;
    if IsBehind(lim, loads, evs, hi - 1, s, x) { m := FirstBehind(lim, loads, evs, lo, hi - 1, s, x); }
  }

  lemma IdleStart(lim: Limits, loads: Loads, evs: seq<Event>, k: nat, n: nat, s: string)
    requires k < n <= |evs| && IdleSince(lim, loads, evs, k, n, s)
    ensures IdleSince(lim, loads, evs, k, k + 1, s)
  {
  }

  lemma IdleAt(lim: Limits, loads: Loads, evs: seq<Event>, k: nat, n: nat, m: nat, s: string)
    requires k + 1 < m <= n <= |evs| && IdleSince(lim, loads, evs, k, n, s)
    ensures Has(lim, loads, evs, m - 1, s) && Has(lim, loads, evs, m, s)
    ensures Touched(lim, loads, LedgerAfter(lim, loads, evs, m - 1), evs[m - 1]) != Some(s)
  {
  }

  lemma NotBehindAtFirst(lim: Limits, loads: Loads, evs: seq<Event>, k: nat, s: string, x: string)
    requires k < |evs| && IdleSince(lim, loads, evs, k, k + 1, s)
    ensures !IsBehind(lim, loads, evs, k + 1, s, x)
  {
    NobodyBehindAtFirst(lim, loads, evs, k, s);
  }

  lemma BehindOneMore(lim: Limits, loads: Loads, evs: seq<Event>, n: nat, s: string, x: string)
    requires 0 < n <= |evs| && Has(lim, loads, evs, n - 1, s) && Has(lim, loads, evs, n, s)
    requires Touched(lim, loads, LedgerAfter(lim, loads, evs, n - 1), evs[n - 1]) != Some(s)
    requires IsBehind(lim, loads, evs, n, s, x)
    ensures IsBehind(lim, loads, evs, n - 1, s, x)
            || Touched(lim, loads, LedgerAfter(lim, loads, evs, n - 1), evs[n - 1]) == Some(x)
  {
    AlwaysWellFormed(lim, loads, evs, n - 1);
    StepBehind(lim, loads, LedgerAfter(lim, loads, evs, n - 1), evs[n - 1], s, x);
  }

  lemma BehindFirst(order: seq<string>, s: string, x: string)
    requires order != [] && order[0] == s && x in order && x != s
    ensures x in Behind(order, s)
  {
    assert order == [s] + order[1..];
  }

  /** An entry that disappears while its session is not being ended was the
      least recently used of a ledger filled to its cap with other sessions. */
  lemma LostWasOldest(lim: Limits, loads: Loads, l: Ledger, ev: Event, s: string)
    requires WellFormed(l) && s in l.budgets && s !in Next(lim, loads, l, ev).budgets
    requires ev != End(s)
    ensures Touched(lim, loads, l, ev).Some? && Touched(lim, loads, l, ev).value != s
    ensures var after := Next(lim, loads, l, ev).order;
            |after| == MAX_BUDGET_ENTRIES && s !in after && NoDuplicates(after)
    ensures forall x :: x in Next(lim, loads, l, ev).order ==>
              x in Behind(l.order, s) || Touched(lim, loads, l, ev) == Some(x)
  {
    NextWellFormed(lim, loads, l, ev);
    var t := ev.s;
    RestoredWellFormed(l, t);
    MoveToEndElements(Restored(l, t).order, t);
    forall x | x in Next(lim, loads, l, ev).order
      ensures x in Behind(l.order, s) || x == t
    {
      OldestBehind(l, s, t, x);
    }
  }

  lemma OldestBehind(l: Ledger, s: string, t: string, x: string)
    requires WellFormed(l) && s in l.order && s != t
    requires var moved := MoveToEnd(Restored(l, t).order, t);
             moved[0] == s && x in moved[1..] && NoDuplicates(moved)
    ensures x in Behind(l.order, s) || x == t
  {
    var r := Restored(l, t);
    var moved := MoveToEnd(r.order, t);
    assert moved == [s] + moved[1..];
    BehindFirst(moved, s, x);
    RestoredWellFormed(l, t);
    RestoredBehind(l, s, t, x);
    BehindAfterMove(r.order, s, t, x);
  }

  /** As many distinct other sessions as the ledger's cap were touched after event k. */
  ghost predicate FullTurnover(lim: Limits, loads: Loads, evs: seq<Event>, k: nat, n: nat, s: string)
    requires k < n < |evs|
  {
    exists others: seq<string> ::
      && |others| == 50_000 && NoDuplicates(others) && s !in others
      && forall x :: x in others ==> TouchedIn(lim, loads, evs, k + 1, n + 1, x)
  }

  lemma LostIdle(lim: Limits, loads: Loads, evs: seq<Event>, k: nat, n: nat, s: string)
    requires k < n < |evs| && IdleSince(lim, loads, evs, k, n, s)
    requires !Has(lim, loads, evs, n + 1, s) && evs[n] != End(s)
    ensures FullTurnover(lim, loads, evs, k, n, s)
  {
    var l := LedgerAfter(lim, loads, evs, n);
    AlwaysWellFormed(lim, loads, evs, n);
    assert Has(lim, loads, evs, n, s);
    LostWasOldest(lim, loads, l, evs[n], s);
    var others := LedgerAfter(lim, loads, evs, n + 1).order;
    forall x | x in others ensures TouchedIn(lim, loads, evs, k + 1, n + 1, x) {
      if x in Behind(l.order, s) {
        BehindWereTouched(lim, loads, evs, k, n, s, x);
      }
    }
  }

  /** Every entry has a last touch, and has been in the ledger since. */
  lemma {:induction false} LastTouch(lim: Limits, loads: Loads, evs: seq<Event>, n: nat, s: string) returns (k: nat)
    requires n <= |evs| && Has(lim, loads, evs, n, s)
    ensures k < n && IdleSince(lim, loads, evs, k, n, s)
    decreases n
  {
    var l := LedgerAfter(lim, loads, evs, n - 1);
    if Touched(lim, loads, l, evs[n - 1]) == Some(s) {
      k := n - 1;
    } else {
      if s !in l.budgets { StepCreates(lim, loads, l, evs[n - 1], s); }
      k := LastTouch(lim, loads, evs, n - 1, s);
      IdleLonger(lim, loads, evs, k, n, s);
    }
  }

  lemma IdleLonger(lim: Limits, loads: Loads, evs: seq<Event>, k: nat, n: nat, s: string)
    requires k + 1 < n <= |evs| && IdleSince(lim, loads, evs, k, n - 1, s) && Has(lim, loads, evs, n, s)
    requires Touched(lim, loads, LedgerAfter(lim, loads, evs, n - 1), evs[n - 1]) != Some(s)
    ensures IdleSince(lim, loads, evs, k, n, s)
  {
    StillNotTouched(lim, loads, evs, k + 1, n, s);
  }

  lemma StillNotTouched(lim: Limits, loads: Loads, evs: seq<Event>, lo: nat, n: nat, s: string)
    requires 0 < n <= |evs| && !TouchedIn(lim, loads, evs, lo, n - 1, s)
    requires Touched(lim, loads, LedgerAfter(lim, loads, evs, n - 1), evs[n - 1]) != Some(s)
    ensures !TouchedIn(lim, loads, evs, lo, n, s)
  {
  }

  /** An entry is lost only at the end of its session, or after as many distinct
      other sessions as the ledger's cap have been touched since its last touch. */
  lemma LostOnlyByEndOrFullTurnover(lim: Limits, loads: Loads, evs: seq<Event>, n: nat, s: string)
    requires n < |evs| && Has(lim, loads, evs, n, s) && !Has(lim, loads, evs, n + 1, s)
    ensures evs[n] == End(s) ||
            exists k :: 0 <= k < n && IdleSince(lim, loads, evs, k, n, s) && FullTurnover(lim, loads, evs, k, n, s)
  {
    if evs[n] != End(s) {
      var k := LastTouch(lim, loads, evs, n, s);
      LostIdle(lim, loads, evs, k, n, s);
    }
  }
}
