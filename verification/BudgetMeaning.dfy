/** What a run of the resource engine answers, told of the run alone: by which
    context, which accepted calls and which arguments a call is judged. */
module BudgetMeaning {
  import opened Common
  import opened Text
  import opened JsonText
  import opened BracketDepth
  import opened JsonDepth
  import opened BudgetLedger
  import opened BudgetRuns

  /** Some chain of values down from this one is longer than the bound. */
  ghost predicate NestsOver(v: Json, bound: int) {
    exists nodes :: Chain(nodes) && |nodes| - 1 > bound && nodes != [] && nodes[0] == v
  }

  /** The arguments nest deeper than the bound, or so does a dict or list that a
      top-level JSON text spells out, one level further down; or such a text is
      written too deep to be read. */
  ghost predicate TooNested(loads: Loads, args: Json, bound: int) {
    || TextTooDeep(args) || NestsOver(args, bound)
    || (args.Obj? && exists t, d :: HasField(args.fields, Str(t)) && SpellsOut(loads, t, d) && NestsOver(d, bound - 1))
  }

  lemma {:induction false} DecodedOver(loads: Loads, fs: Fields, bound: int)
    ensures DecodedOf(loads, fs).Field? && FieldsDepth(DecodedOf(loads, fs)) > bound <==>
            exists t, d :: HasField(fs, Str(t)) && SpellsOut(loads, t, d) && NestsOver(d, bound)
  {
    if fs.Field? {
      DecodedOver(loads, fs.rest, bound);
      var inner := DecodedOf(loads, fs.rest);
      assert inner.NoFields? ==> FieldsDepth(inner) == 0;
      if Decoding(loads, fs.value).Some? {
        var d := Decoding(loads, fs.value).value;
        DecodingIs(loads, fs.value, d);
        DeeperExactlyWhen(d, bound);
        assert fs.value == Str(fs.value.s) && HasField(fs, Str(fs.value.s));
      }
      forall t, d | HasField(fs, Str(t)) && SpellsOut(loads, t, d) && NestsOver(d, bound)
        ensures HasField(fs.rest, Str(t)) || Decoding(loads, fs.value) == Some(d)
      {
        DecodingIs(loads, fs.value, d);
      }
      forall t ensures HasField(fs.rest, Str(t)) ==> HasField(fs, Str(t)) {
      }
    }
  }

  lemma TooNestedIs(loads: Loads, args: Json, bound: int)
    ensures ArgumentDepth(loads, args).None? || ArgumentDepth(loads, args).value > bound <==>
            TooNested(loads, args, bound)
  {
    DeeperExactlyWhen(args, bound);
    if args.Obj? {
      RefusedExactlyWhen(args.fields);
      DecodedOver(loads, args.fields, bound - 1);
    }
  }

  /** What a content-bearing call is answered after so many calls, since the wall
      clock's start and at a loop depth. */
  ghost function Answer(lim: Limits, loads: Loads, used: nat, since: real, depth: int, q: Request, now: real): Reply {
    if used >= lim.maxCalls then CallsExhausted
    else if now - since > lim.maxWall then WallExceeded
    else if depth > lim.maxLoop then LoopTooDeep
    else if q.arguments.Some? && TooNested(loads, q.arguments.value, lim.maxArgDepth) then ArgumentsTooDeep
    else Proceed(Budget(used + 1, since, depth))
  }

  lemma JudgedIs(lim: Limits, loads: Loads, b: Budget, q: Request, now: real)
    ensures Judged(lim, loads, b, q, now) == Answer(lim, loads, b.callsUsed, b.wallStart, b.loopDepth, q, now)
  {
    if q.arguments.Some? { TooNestedIs(loads, q.arguments.value, lim.maxArgDepth); }
  }

  ghost function ReplyTo(lim: Limits, loads: Loads, evs: seq<Event>, n: nat): Reply
    requires n < |evs| && evs[n].Ask?
  {
    RequestOn(lim, loads, LedgerAfter(lim, loads, evs, n), evs[n].s, evs[n].given, evs[n].q, evs[n].now).reply
  }

  /** As long as a session's entry lasts, each of its content-bearing calls is judged
      by the context the entry was created from and the calls accepted since, not
      by the context it comes with. */
  lemma AnsweredExactly(lim: Limits, loads: Loads, evs: seq<Event>, i: nat, n: nat)
    requires i < n < |evs| && lim.maxCalls >= 0 && evs[n].Ask? && evs[n].q.content
    requires !Has(lim, loads, evs, i, evs[n].s) && forall k :: i < k <= n ==> Has(lim, loads, evs, k, evs[n].s)
    ensures !evs[i].End? && !evs[i].Reap? && evs[i].s == evs[n].s
    ensures var given, used := evs[i].given, AcceptedCalls(lim, loads, evs, i, n, evs[n].s);
            ReplyTo(lim, loads, evs, n) == Answer(lim, loads, given.callsUsed + used, given.wallStart,
                                                  given.loopDepth, evs[n].q, evs[n].now)
  {
    var l := LedgerAfter(lim, loads, evs, n);
    assert Has(lim, loads, evs, n, evs[n].s);
    EntryAccounts(lim, loads, evs, i, n, evs[n].s);
    JudgedIs(lim, loads, l.budgets[evs[n].s], evs[n].q, evs[n].now);
  }

  /** Without an entry a call is judged by the context it comes with; one without
      content is not judged, and changes nothing. */
  lemma AnsweredAtFirst(lim: Limits, loads: Loads, evs: seq<Event>, n: nat)
    requires n < |evs| && evs[n].Ask?
    ensures var given := evs[n].given;
            && (!evs[n].q.content ==>
                  && ReplyTo(lim, loads, evs, n) == Proceed(given)
                  && LedgerAfter(lim, loads, evs, n + 1) == LedgerAfter(lim, loads, evs, n))
            && (evs[n].q.content && !Has(lim, loads, evs, n, evs[n].s) ==>
                  ReplyTo(lim, loads, evs, n)
                  == Answer(lim, loads, given.callsUsed, given.wallStart, given.loopDepth, evs[n].q, evs[n].now))
  {
    JudgedIs(lim, loads, evs[n].given, evs[n].q, evs[n].now);
  }

  lemma SavedStays(l: Ledger, s: string, b: Budget)
    requires WellFormed(l)
    ensures s in Saved(l, s, b).budgets && Saved(l, s, b).budgets[s] == b
  {
    MoveToEndElements(l.order, s);
    var moved := MoveToEnd(l.order, s);
    if |moved| > 50_000 { assert moved[|moved| - 1] == s != moved[0]; }
  }

  /** An entry is there after its session's start and after each accepted call; an
      ended session has none, and reaping takes none. */
  lemma EntryThere(lim: Limits, loads: Loads, evs: seq<Event>, n: nat, s: string)
    requires n < |evs|
    ensures evs[n].Start? && evs[n].s == s ==> Has(lim, loads, evs, n + 1, s)
    ensures evs[n].Ask? && evs[n].s == s && evs[n].q.content && ReplyTo(lim, loads, evs, n).Proceed? ==>
              Has(lim, loads, evs, n + 1, s)
    ensures evs[n] == End(s) ==> !Has(lim, loads, evs, n + 1, s)
    ensures evs[n].Reap? ==> (Has(lim, loads, evs, n + 1, s) <==> Has(lim, loads, evs, n, s))
  {
    AlwaysWellFormed(lim, loads, evs, n);
    var l := LedgerAfter(lim, loads, evs, n);
    RestoredWellFormed(l, s);
    if evs[n].Start? && evs[n].s == s {
      SavedStays(Restored(l, s), s, EffectiveBudget(l, s, evs[n].given));
    } else if evs[n].Ask? && evs[n].s == s && evs[n].q.content && ReplyTo(lim, loads, evs, n).Proceed? {
      SavedStays(Restored(l, s), s, ReplyTo(lim, loads, evs, n).budget);
    }
  }
}
