/** The handle registry when readings regress: exactly when its amortised sweep
    can be told from a sweep at every reading. */
module HandleClock {
  import opened Common
  import opened Handles
  import opened HandleRuns

  /** Some reading since the handle was minted reached its expiry: the reference
      has swept it. */
  ghost predicate SeenExpired(ops: seq<Op>, n: nat, h: string)
    requires n <= |ops|
  {
    exists m, k :: 0 <= m < k < n && ops[m].Mint? && ops[m].q.handle == h && Clocked(ops[k])
                   && Reading(ops[k]) >= Issued(ops[m].q).expiresAt
  }

  ghost function Unseen(ops: seq<Op>, n: nat, rs: Handles.Records): Handles.Records
    requires n <= |ops|
  {
    map h | h in rs && !SeenExpired(ops, n, h) :: rs[h]
  }

  /** The same answer whether or not the records seen expired are still there. */
  ghost predicate Silent(l: Limits, ops: seq<Op>, i: nat)
    requires i < |ops| && Clocked(ops[i])
  {
    var rs := LazyAfter(l, ops, i).records;
    EagerStep(l, rs, ops[i]).reply == EagerStep(l, Unseen(ops, i, rs), ops[i]).reply
  }

  lemma {:induction false} MintOf(l: Limits, ops: seq<Op>, n: nat, h: string) returns (m: nat)
    requires n <= |ops| && FreshHandles(ops) && h in LazyAfter(l, ops, n).records
    ensures m < n && ops[m].Mint? && ops[m].q.handle == h && LazyAfter(l, ops, n).records[h] == Issued(ops[m].q)
    decreases n
  {
    if ops[n - 1].Mint? && ops[n - 1].q.handle == h {
      m := n - 1;
      if h in LazyAfter(l, ops, n - 1).records { var k := MintOf(l, ops, n - 1, h); }
      MintedRecord(l, LazyAfter(l, ops, n - 1), ops[n - 1].q);
    } else {
      StepTakesOld(l, LazyAfter(l, ops, n - 1), ops[n - 1], h);
      m := MintOf(l, ops, n - 1, h);
    }
  }

  lemma MintedRecord(l: Limits, r: Registry, q: MintRequest)
    requires q.handle !in r.records && q.handle in MintOn(l, r, q).after.records
    ensures MintOn(l, r, q).after.records[q.handle] == Issued(q) && MintOn(l, r, q).result == Minted(q.handle)
  {
  }

  lemma StepTakesOld(l: Limits, r: Registry, op: Op, h: string)
    requires op.Mint? ==> op.q.handle != h
    requires h in LazyStep(l, r, op).registry.records
    ensures h in r.records && LazyStep(l, r, op).registry.records[h] == r.records[h]
  {
    if op.Mint? { MintTakesOld(l, r, op.q, h); }
  }

  lemma MintTakesOld(l: Limits, r: Registry, q: MintRequest, h: string)
    requires q.handle != h && h in MintOn(l, r, q).after.records
    ensures h in r.records && MintOn(l, r, q).after.records[h] == r.records[h]
  {
    MintResults(l, r, q);
    StagesWithin(l, r, q);
  }

  /** A handle has one mint, so its expiry tells what the next reading reaches. */
  lemma SeenNext(l: Limits, ops: seq<Op>, n: nat, h: string)
    requires n < |ops| && FreshHandles(ops) && h in LazyAfter(l, ops, n).records
    ensures SeenExpired(ops, n + 1, h) <==>
            SeenExpired(ops, n, h)
            || (Clocked(ops[n]) && Reading(ops[n]) >= LazyAfter(l, ops, n).records[h].expiresAt)
  {
    var m := MintOf(l, ops, n, h);
    if SeenExpired(ops, n + 1, h) {
      var m', k :| 0 <= m' < k < n + 1 && ops[m'].Mint? && ops[m'].q.handle == h && Clocked(ops[k])
                   && Reading(ops[k]) >= Issued(ops[m'].q).expiresAt;
      assert m' == m;
    }
  }

  lemma NotSeenAtMint(ops: seq<Op>, n: nat)
    requires n < |ops| && FreshHandles(ops) && ops[n].Mint?
    ensures !SeenExpired(ops, n + 1, ops[n].q.handle)
  {
  }

  /** What one operation does to one old record, in both registries. */
  lemma OldRecordStep(l: Limits, ops: seq<Op>, n: nat, h: string)
    requires n < |ops| && FreshHandles(ops) && h in LazyAfter(l, ops, n).records
    ensures ops[n].Mint? ==> ops[n].q.handle != h
    ensures var rs, after := LazyAfter(l, ops, n).records, LazyAfter(l, ops, n + 1).records;
            var lives := !Revokes(ops[n], rs[h]) && (Clocked(ops[n]) ==> Reading(ops[n]) < rs[h].expiresAt);
            && (h in after ==> after[h] == rs[h] && !Revokes(ops[n], rs[h]))
            && (lives ==> h in after)
  {
    var m := MintOf(l, ops, n, h);
    StepOnRecord(l, LazyAfter(l, ops, n), ops[n], LazyAfter(l, ops, n).records[h]);
  }

  lemma EagerOldRecord(l: Limits, es: Handles.Records, op: Op, h: string)
    requires h in es ==> es[h].handle == h
    requires op.Mint? ==> op.q.handle != h
    ensures var after := EagerStep(l, es, op).records;
            && (h in after <==>
                  h in es && !Revokes(op, es[h]) && (Clocked(op) ==> Reading(op) < es[h].expiresAt))
            && (h in after ==> after[h] == es[h])
  {
  }

  /** Operation i reads no clock, or is answered as under a sweep at every reading. */
  ghost predicate AgreesAt(l: Limits, ops: seq<Op>, i: nat)
    requires i < |ops|
  {
    Clocked(ops[i]) ==> LazyReply(l, ops, i) == EagerReply(l, ops, i)
  }

  /** The reference holds what has not been seen expired. */
  ghost predicate Tracks(l: Limits, ops: seq<Op>, n: nat)
    requires n <= |ops|
  {
    EagerAfter(l, ops, n) == Unseen(ops, n, LazyAfter(l, ops, n).records)
  }

  lemma StepTracks(l: Limits, ops: seq<Op>, n: nat)
    requires n < |ops| && FreshHandles(ops) && Tracks(l, ops, n) && AgreesAt(l, ops, n)
    ensures Tracks(l, ops, n + 1)
  {
    var a, b := EagerAfter(l, ops, n + 1), Unseen(ops, n + 1, LazyAfter(l, ops, n + 1).records);
    forall h ensures (h in a <==> h in b) && (h in a ==> a[h] == b[h]) {
      if ops[n].Mint? && ops[n].q.handle == h {
        NewRecordAlike(l, ops, n);
      } else {
        OldRecordAlike(l, ops, n, h);
      }
    }
  }

  lemma OldRecordAlike(l: Limits, ops: seq<Op>, n: nat, h: string)
    requires n < |ops| && FreshHandles(ops) && (ops[n].Mint? ==> ops[n].q.handle != h)
    requires Tracks(l, ops, n)
    ensures var a, b := EagerAfter(l, ops, n + 1), Unseen(ops, n + 1, LazyAfter(l, ops, n + 1).records);
            (h in a <==> h in b) && (h in a ==> a[h] == b[h])
  {
    var rs, es := LazyAfter(l, ops, n).records, EagerAfter(l, ops, n);
    if h in rs {
      var m := MintOf(l, ops, n, h);
      OldRecordStep(l, ops, n, h);
      SeenNext(l, ops, n, h);
      EagerOldRecord(l, es, ops[n], h);
    } else {
      if h in LazyAfter(l, ops, n + 1).records { StepTakesOld(l, LazyAfter(l, ops, n), ops[n], h); }
      EagerOldRecord(l, es, ops[n], h);
    }
  }

  lemma NewRecordAlike(l: Limits, ops: seq<Op>, n: nat)
    requires n < |ops| && FreshHandles(ops) && ops[n].Mint?
    requires Tracks(l, ops, n)
    requires AgreesAt(l, ops, n)
    ensures var a, b := EagerAfter(l, ops, n + 1), Unseen(ops, n + 1, LazyAfter(l, ops, n + 1).records);
            var h := ops[n].q.handle;
            (h in a <==> h in b) && (h in a ==> a[h] == b[h])
  {
    var q, r := ops[n].q, LazyAfter(l, ops, n);
    if q.handle in r.records { var m := MintOf(l, ops, n, q.handle); }
    NotSeenAtMint(ops, n);
    if q.handle in LazyAfter(l, ops, n + 1).records { MintedRecord(l, r, q); }
    if MintOn(l, r, q).result == Minted(q.handle) { RecordStarts(l, r, q); }
    NewInReference(l, EagerAfter(l, ops, n), q);
  }

  lemma NewInReference(l: Limits, es: Handles.Records, q: MintRequest)
    requires q.handle !in es
    ensures var e := EagerStep(l, es, Op.Mint(q));
            && (q.handle in e.records <==> e.reply == MintReply(Minted(q.handle)))
            && (q.handle in e.records ==> e.records[q.handle] == Issued(q))
  {
  }

  /** An amortised answer is the plain one over all the records still held. */
  lemma LazyAnswers(l: Limits, ops: seq<Op>, i: nat)
    requires i < |ops| && Clocked(ops[i])
    ensures LazyReply(l, ops, i) == EagerStep(l, LazyAfter(l, ops, i).records, ops[i]).reply
  {
    var r := LazyAfter(l, ops, i);
    StepSimulated(l, r, Reading(ops[i]), ops[i]);
    LiveTwice(r.records, Reading(ops[i]), Reading(ops[i]));
  }

  lemma AgreesAtExactlyWhen(l: Limits, ops: seq<Op>, n: nat)
    requires n < |ops| && Tracks(l, ops, n)
    ensures AgreesAt(l, ops, n) <==> SilentAt(l, ops, n)
  {
    if Clocked(ops[n]) { LazyAnswers(l, ops, n); }
  }

  ghost predicate SilentAt(l: Limits, ops: seq<Op>, i: nat)
    requires i < |ops|
  {
    Clocked(ops[i]) ==> Silent(l, ops, i)
  }

  /** The first n operations all agree. */
  ghost predicate AgreeBefore(l: Limits, ops: seq<Op>, n: nat)
    requires n <= |ops|
  {
    n == 0 || (AgreeBefore(l, ops, n - 1) && AgreesAt(l, ops, n - 1))
  }

  /** The first n operations are all silent. */
  ghost predicate SilentBefore(l: Limits, ops: seq<Op>, n: nat)
    requires n <= |ops|
  {
    n == 0 || (SilentBefore(l, ops, n - 1) && SilentAt(l, ops, n - 1))
  }

  lemma TracksAtFirst(l: Limits, ops: seq<Op>)
    ensures Tracks(l, ops, 0)
  {
    assert Unseen(ops, 0, map[]) == map[];
  }

  lemma {:induction false} TracksWhileAgreeing(l: Limits, ops: seq<Op>, n: nat)
    requires n <= |ops| && FreshHandles(ops) && AgreeBefore(l, ops, n)
    ensures Tracks(l, ops, n)
    decreases n
  {
    if n == 0 {
      TracksAtFirst(l, ops);
    } else {
      TracksWhileAgreeing(l, ops, n - 1);
      StepTracks(l, ops, n - 1);
    }
  }

  /** The first answer that differs is the first that is not silent. */
  lemma FirstDifferenceExactlyWhen(l: Limits, ops: seq<Op>, n: nat)
    requires n < |ops| && FreshHandles(ops) && AgreeBefore(l, ops, n)
    ensures AgreesAt(l, ops, n) <==> SilentAt(l, ops, n)
  {
    TracksWhileAgreeing(l, ops, n);
    AgreesAtExactlyWhen(l, ops, n);
  }

  lemma {:induction false} SilentWhileAgreeing(l: Limits, ops: seq<Op>, n: nat)
    requires n <= |ops| && FreshHandles(ops) && AgreeBefore(l, ops, n)
    ensures SilentBefore(l, ops, n)
    decreases n
  {
    if n > 0 {
      SilentWhileAgreeing(l, ops, n - 1);
      FirstDifferenceExactlyWhen(l, ops, n - 1);
    }
  }

  lemma {:induction false} AgreeWhileSilent(l: Limits, ops: seq<Op>, n: nat)
    requires n <= |ops| && FreshHandles(ops) && SilentBefore(l, ops, n)
    ensures AgreeBefore(l, ops, n)
    decreases n
  {
    if n > 0 {
      AgreeWhileSilent(l, ops, n - 1);
      FirstDifferenceExactlyWhen(l, ops, n - 1);
    }
  }

  /** Whatever the clock does: the first n mints, resolves and lists of a run are
      all answered as under a sweep at every reading exactly when all of them are
      silent about the records that an earlier reading had seen expired. */
  lemma AnswersAgreeExactlyWhen(l: Limits, ops: seq<Op>, n: nat)
    requires n <= |ops| && FreshHandles(ops)
    ensures AgreeBefore(l, ops, n) <==> SilentBefore(l, ops, n)
  {
    if AgreeBefore(l, ops, n) { SilentWhileAgreeing(l, ops, n); }
    if SilentBefore(l, ops, n) { AgreeWhileSilent(l, ops, n); }
  }

  /** A resolve is not silent exactly when it would find a record that an earlier
      reading had seen expired. */
  lemma ResolveSilentExactlyWhen(l: Limits, ops: seq<Op>, i: nat)
    requires i < |ops| && ops[i].Resolve?
    ensures Silent(l, ops, i) <==>
            !(EagerStep(l, LazyAfter(l, ops, i).records, ops[i]).reply.record.Some?
              && SeenExpired(ops, i, ops[i].handle))
  {
  }

  /** A list is not exactly when such a record is among those it gives. */
  lemma ListSilentExactlyWhen(l: Limits, ops: seq<Op>, i: nat)
    requires i < |ops| && FreshHandles(ops) && ops[i].List?
    ensures Silent(l, ops, i) <==>
            forall r :: r in EagerStep(l, LazyAfter(l, ops, i).records, ops[i]).reply.records ==>
              !SeenExpired(ops, i, r.handle)
  {
    var rs := LazyAfter(l, ops, i).records;
    forall h | h in rs ensures rs[h].handle == h {
      var m := MintOf(l, ops, i, h);
    }
    var all := EagerStep(l, rs, ops[i]).reply.records;
    var some := EagerStep(l, Unseen(ops, i, rs), ops[i]).reply.records;
    forall r | r in all ensures r in some <==> !SeenExpired(ops, i, r.handle) {
      var h :| h in Live(rs, ops[i].now) && rs[h] == r;
      assert r.handle == h;
      if h in Unseen(ops, i, rs) { assert h in Live(Unseen(ops, i, rs), ops[i].now); }
    }
    assert some <= all;
  }

  /** A handle is minted, its expiry is read elsewhere, and an earlier reading
      resolves it. */
  lemma RegressedResolve(l: Limits, ops: seq<Op>)
    requires |ops| == 3 && ops[0].Mint? && ops[1].Resolve? && ops[2].Resolve?
    requires var q := ops[0].q;
             && q.principal != "" && q.tenant != "" && 0 < q.ttl <= l.maxTtl && |q.handle| <= MAX_HANDLE_CHARS
             && ops[1].handle != q.handle && ops[1].now >= Issued(q).expiresAt > ops[2].now
             && ops[2] == Op.Resolve(q.handle, q.principal, q.tenant, None, ops[2].now)
    requires l.max > 0 && l.perPrincipal > 0 && l.perTenant > 0
    ensures LazyReply(l, ops, 2) == ResolveReply(Some(Issued(ops[0].q)))
    ensures EagerReply(l, ops, 2) == ResolveReply(None)
  {
    var q := ops[0].q;
    FirstMint(l, q);
    StillHeld(l, Registry(map[], 0.0), q, ops[1]);
    assert LazyAfter(l, ops, 1) == LazyStep(l, Registry(map[], 0.0), ops[0]).registry;
    NewInReference(l, map[], q);
    assert EagerAfter(l, ops, 1) == EagerStep(l, map[], ops[0]).records;
    EagerOldRecord(l, EagerAfter(l, ops, 1), ops[1], q.handle);
  }

  /** Two readings out of order are enough to tell. */
  lemma RegressionShows()
    ensures exists l: Limits, ops: seq<Op> ::
              && |ops| == 3 && FreshHandles(ops) && Clocked(ops[1]) && Clocked(ops[2])
              && Reading(ops[2]) < Reading(ops[1]) && LazyReply(l, ops, 2) != EagerReply(l, ops, 2)
  {
    var l := Limits(10, 10, 10, 60);
    var q := MintRequest("ann", "t", "task", 5, 1.0, "h");
    var ops := [Op.Mint(q), Op.Resolve("other", "ann", "t", None, 7.0), Op.Resolve("h", "ann", "t", None, 5.0)];
    RegressedResolve(l, ops);
  }
}
