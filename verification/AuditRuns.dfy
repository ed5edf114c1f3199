/** Whole runs of the audit engine: appends, anchor writes that land late and in
    any order, interruptions, and restarts that may each bring other MAC keys. */
module AuditRuns {
  import opened Common
  import opened Text
  import opened JsonText
  import opened Dict
  import opened AuditChain
  import opened AuditWriter

  /** The engine up or down, its keys and files, and the anchor writes still under
      way. Which key signed each record and the anchor is kept beside: no step
      looks at it. */
  datatype System = System(memory: Option<Memory>, keys: Keys, disk: Disk, pending: seq<Sidecar>,
                           signers: seq<Option<Key>>, anchoredBy: Option<Key>)

  datatype Step =
    | Start(verify: bool, keys: Keys)
    | AppendRecord(meta: Fields, extra: Fields)
    | LandAnchor(i: nat)
    | Interrupt

  function Restarted(crypto: Crypto, s: System, verify: bool, keys: Keys): System {
    var started := Startup(crypto, keys, verify, s.disk);
    var again := verify && started.memory.Some? && started.memory.value.seq_ > 0;
    System(started.memory, keys, started.disk, [], s.signers, if again then keys.current else s.anchoredBy)
  }

  function Appended(crypto: Crypto, s: System, meta: Fields, extra: Fields): System
    requires s.memory.Some?
  {
    var fs := Numbered(meta, s.memory.value.seq_, s.memory.value.prev, extra);
    var head, count, k := crypto.hash(Canonical(fs)), s.memory.value.seq_ + 1, s.keys.current;
    s.(memory := Some(Memory(count, head)),
       disk := s.disk.(log := Some(Recs(s.disk) + [Sealed(crypto, k, fs)])),
       pending := s.pending + [NewAnchor(crypto, k, count, head)],
       signers := s.signers + [k])
  }

  function Next(crypto: Crypto, s: System, step: Step): System {
    match step
    case Start(verify, keys) => if s.memory.Some? then s else Restarted(crypto, s, verify, keys)
    case AppendRecord(meta, extra) => if s.memory.None? then s else Appended(crypto, s, meta, extra)
    case LandAnchor(i) =>
      if i < |s.pending| then
        s.(disk := s.disk.(sidecar := s.pending[i]), pending := s.pending[..i] + s.pending[i + 1..],
           anchoredBy := s.keys.current)
      else s
    case Interrupt => s.(memory := None, pending := [])
  }

  const CLEAN := System(None, Keys(None, None), Disk(None, Absent, false), [], [], None)

  ghost function AfterFrom(crypto: Crypto, s: System, steps: seq<Step>): System {
    if steps == [] then s
    else Next(crypto, AfterFrom(crypto, s, steps[..|steps| - 1]), steps[|steps| - 1])
  }

  ghost function After(crypto: Crypto, steps: seq<Step>): System { AfterFrom(crypto, CLEAN, steps) }

  // ----- what every run keeps -----

  /** Record i is linked to those before it and tagged under its own signer's key. */
  ghost predicate Signed(crypto: Crypto, k: Option<Key>, recs: seq<Json>, i: nat)
    requires i < |recs|
  {
    LinkHolds(crypto, Keys(k, None), recs, i)
  }

  ghost predicate AllSigned(crypto: Crypto, signers: seq<Option<Key>>, recs: seq<Json>) {
    |signers| == |recs| && forall i: nat :: i < |recs| ==> Signed(crypto, signers[i], recs, i)
  }

  /** The anchor was made under this key for a real, non-empty prefix of the log. */
  ghost predicate NamesPrefix(crypto: Crypto, k: Option<Key>, recs: seq<Json>, a: Sidecar) {
    a.Anchor? && 1 <= a.count <= |recs| && a == NewAnchor(crypto, k, a.count, HeadBefore(recs, a.count))
  }

  ghost predicate AnchorsSound(crypto: Crypto, s: System) {
    && (s.disk.sidecar.Absent? || NamesPrefix(crypto, s.anchoredBy, Recs(s.disk), s.disk.sidecar))
    && (forall i :: 0 <= i < |s.pending| ==> NamesPrefix(crypto, s.keys.current, Recs(s.disk), s.pending[i]))
  }

  ghost predicate Sound(crypto: Crypto, s: System) {
    var recs := Recs(s.disk);
    && AllSigned(crypto, s.signers, recs) && AnchorsSound(crypto, s)
    && (s.disk.log.Some? ==> recs != [])
    && (s.memory.Some? ==> s.memory.value == Memory(|recs|, HeadBefore(recs, |recs|)))
    && (s.memory.Some? && s.keys.current.Some? ==> s.disk.marker)
  }

  lemma PrefixSurvives(crypto: Crypto, k: Option<Key>, recs: seq<Json>, rec: Json, a: Sidecar)
    requires NamesPrefix(crypto, k, recs, a)
    ensures NamesPrefix(crypto, k, recs + [rec], a)
  {
    var n: nat := a.count;
    assert HeadBefore(recs + [rec], n) == HeadBefore(recs, n);
  }

  lemma OneMoreSigned(crypto: Crypto, signers: seq<Option<Key>>, recs: seq<Json>, k: Option<Key>, rec: Json)
    requires AllSigned(crypto, signers, recs)
    ensures AllSigned(crypto, signers + [k], recs + [rec]) <==> Signed(crypto, k, recs + [rec], |recs|)
  {
    forall i: nat | i < |recs| ensures Signed(crypto, (signers + [k])[i], recs + [rec], i) {
      assert Signed(crypto, signers[i], recs, i);
      LinkSurvives(crypto, Keys(signers[i], None), recs, rec, i);
    }
    assert (signers + [k])[|recs|] == k;
  }

  lemma AppendedAnchors(crypto: Crypto, s: System, meta: Fields, extra: Fields)
    requires HexMacs(crypto) && Sound(crypto, s) && s.memory.Some?
    ensures AnchorsSound(crypto, Appended(crypto, s, meta, extra))
    ensures var t := Appended(crypto, s, meta, extra);
            t.memory.value == Memory(|Recs(t.disk)|, HeadBefore(Recs(t.disk), |Recs(t.disk)|))
  {
    var recs, t := Recs(s.disk), Appended(crypto, s, meta, extra);
    var rec := Recs(t.disk)[|recs|];
    SealedLinksExactlyWhen(crypto, s.keys, recs, meta, extra);
    if s.disk.sidecar.Anchor? {
      PrefixSurvives(crypto, s.anchoredBy, recs, rec, s.disk.sidecar);
    }
    forall i | 0 <= i < |t.pending| ensures NamesPrefix(crypto, t.keys.current, recs + [rec], t.pending[i]) {
      if i < |s.pending| {
        PrefixSurvives(crypto, s.keys.current, recs, rec, s.pending[i]);
      }
    }
  }

  /** A record appended in this state keeps its own number and link. */
  ghost predicate StepKeepsLink(crypto: Crypto, s: System, step: Step) {
    step.AppendRecord? && s.memory.Some? ==>
      KeepsLink(crypto, step.extra, s.memory.value.seq_, s.memory.value.prev)
  }

  lemma AppendKeepsSoundExactlyWhen(crypto: Crypto, s: System, meta: Fields, extra: Fields)
    requires HexMacs(crypto) && Sound(crypto, s) && s.memory.Some?
    ensures Sound(crypto, Appended(crypto, s, meta, extra)) <==>
            KeepsLink(crypto, extra, s.memory.value.seq_, s.memory.value.prev)
  {
    var recs, k := Recs(s.disk), s.keys.current;
    var rec := Sealed(crypto, k, Numbered(meta, |recs|, HeadBefore(recs, |recs|), extra));
    SealedLinksExactlyWhen(crypto, Keys(k, None), recs, meta, extra);
    OneMoreSigned(crypto, s.signers, recs, k, rec);
    AppendedAnchors(crypto, s, meta, extra);
  }

  /** A signed log passes without keys, and the seed reader finds its tail. */
  lemma SignedLogSeeds(crypto: Crypto, signers: seq<Option<Key>>, recs: seq<Json>)
    requires AllSigned(crypto, signers, recs)
    ensures Seed(AsLines(recs), 0, GENESIS) == Intact(|recs|, HeadBefore(recs, |recs|))
  {
    var none := Keys(None, None);
    forall i: nat | i < |recs| ensures LinkHolds(crypto, none, recs, i) {
      assert Signed(crypto, signers[i], recs, i);
    }
    LinesAreRecords(recs);
    PassesExactlyWhen(crypto, none, AsLines(recs));
    SeedFollowsJudge(crypto, none, AsLines(recs), 0, GENESIS);
  }

  lemma StartupFindsTail(crypto: Crypto, s: System, verify: bool, keys: Keys)
    requires Sound(crypto, s)
    ensures var started, recs := Startup(crypto, keys, verify, s.disk), Recs(s.disk);
            && started.disk.log == s.disk.log
            && (started.memory.Some? ==>
                  && started.memory.value == Memory(|recs|, HeadBefore(recs, |recs|))
                  && (keys.current.Some? ==> started.disk.marker)
                  && started.disk.sidecar == if verify && recs != []
                                             then NewAnchor(crypto, keys.current, |recs|, HeadBefore(recs, |recs|))
                                             else s.disk.sidecar)
            && (started.memory.None? ==> started.disk.sidecar == s.disk.sidecar)
  {
    var recs, d := Recs(s.disk), s.disk;
    LinesAreRecords(recs);
    SignedLogSeeds(crypto, s.signers, recs);
    VerifierIsItsSpecification(crypto, keys, d.marker || keys.current.Some?, AsLines(recs), d.sidecar);
  }

  /** Whatever keys it brings, a start keeps the system sound; a verified log is
      re-anchored at its tail under the current key. */
  lemma StartKeepsSound(crypto: Crypto, s: System, verify: bool, keys: Keys)
    requires Sound(crypto, s) && s.memory.None?
    ensures Sound(crypto, Restarted(crypto, s, verify, keys))
    ensures var t, recs := Restarted(crypto, s, verify, keys), Recs(s.disk);
            verify && t.memory.Some? && s.disk.log.Some? ==>
              t.disk.sidecar == NewAnchor(crypto, keys.current, |recs|, HeadBefore(recs, |recs|))
  {
    StartupFindsTail(crypto, s, verify, keys);
  }

  lemma StepKeepsSound(crypto: Crypto, s: System, step: Step)
    requires HexMacs(crypto) && Sound(crypto, s)
    ensures Sound(crypto, Next(crypto, s, step)) <==> StepKeepsLink(crypto, s, step)
  {
    if step.Start? && s.memory.None? {
      StartKeepsSound(crypto, s, step.verify, step.keys);
    } else if step.AppendRecord? && s.memory.Some? {
      AppendKeepsSoundExactlyWhen(crypto, s, step.meta, step.extra);
    }
  }

  ghost predicate Honest(crypto: Crypto, s: System, steps: seq<Step>) {
    steps == [] ||
    (&& Honest(crypto, s, steps[..|steps| - 1])
     && StepKeepsLink(crypto, AfterFrom(crypto, s, steps[..|steps| - 1]), steps[|steps| - 1]))
  }

  /** From a sound system, under any interleaving of appends, late anchor writes
      in any order, interruptions and restarts under any keys, the log is a chain,
      each record signed by the engine that wrote it, memory is its tail, and the
      anchor and every anchor still to land name a real prefix. */
  lemma {:induction false} AlwaysSound(crypto: Crypto, s: System, steps: seq<Step>)
    requires HexMacs(crypto) && Sound(crypto, s) && Honest(crypto, s, steps)
    ensures Sound(crypto, AfterFrom(crypto, s, steps))
    decreases |steps|
  {
    if steps != [] {
      AlwaysSound(crypto, s, steps[..|steps| - 1]);
      StepKeepsSound(crypto, AfterFrom(crypto, s, steps[..|steps| - 1]), steps[|steps| - 1]);
    }
  }

  ghost predicate SoundThroughout(crypto: Crypto, s: System, steps: seq<Step>) {
    && Sound(crypto, AfterFrom(crypto, s, steps))
    && (steps != [] ==> SoundThroughout(crypto, s, steps[..|steps| - 1]))
  }

  /** And all of that lasts throughout a run exactly when no appended record
      overrides its number or link with something else. */
  lemma {:induction false} SoundThroughoutExactlyWhen(crypto: Crypto, s: System, steps: seq<Step>)
    requires HexMacs(crypto) && Sound(crypto, s)
    ensures SoundThroughout(crypto, s, steps) <==> Honest(crypto, s, steps)
    decreases |steps|
  {
    if steps != [] {
      var front := steps[..|steps| - 1];
      SoundThroughoutExactlyWhen(crypto, s, front);
      if SoundThroughout(crypto, s, front) {
        AlwaysSound(crypto, s, front);
        StepKeepsSound(crypto, AfterFrom(crypto, s, front), steps[|steps| - 1]);
      }
    }
  }

  /** What the repository's own callers append: no number and no link in extra. */
  ghost predicate PlainSteps(steps: seq<Step>) {
    forall i :: 0 <= i < |steps| && steps[i].AppendRecord? ==>
      Last(steps[i].extra, SEQ) == None && Last(steps[i].extra, PREV_HASH) == None
  }

  lemma {:induction false} PlainStepsAreHonest(crypto: Crypto, s: System, steps: seq<Step>)
    requires PlainSteps(steps)
    ensures Honest(crypto, s, steps)
    decreases |steps|
  {
    if steps != [] {
      PlainStepsAreHonest(crypto, s, steps[..|steps| - 1]);
      assert StepKeepsLink(crypto, AfterFrom(crypto, s, steps[..|steps| - 1]), steps[|steps| - 1]);
    }
  }

  // ----- exactly which keys a start accepts -----

  /** The tag made under a key is also one that a pair of keys expects. */
  predicate StillTagged(crypto: Crypto, k: Key, keys: Keys, message: Text) {
    || keys.current.None? || crypto.mac(keys.current.value, message) == crypto.mac(k, message)
    || (keys.previous.Some? && crypto.mac(keys.previous.value, message) == crypto.mac(k, message))
  }

  /** So for a record; one that was not signed must happen to carry such a tag. */
  ghost predicate RecordStill(crypto: Crypto, k: Option<Key>, keys: Keys, v: Json) {
    && v.Obj?
    && if k.Some? then StillTagged(crypto, k.value, keys, Canonical(v.fields))
       else TagChecks(crypto, keys, Get(v.fields, CHAIN_HMAC), Canonical(v.fields))
  }

  predicate AnchorStill(crypto: Crypto, k: Option<Key>, keys: Keys, a: Sidecar)
    requires a.Anchor?
  {
    keys.current.None? || (k.Some? && StillTagged(crypto, k.value, keys, AnchorText(a.count, a.head)))
  }

  ghost predicate RecordsStill(crypto: Crypto, signers: seq<Option<Key>>, keys: Keys, recs: seq<Json>)
    requires |signers| == |recs|
  {
    forall i: nat :: i < |recs| ==> RecordStill(crypto, signers[i], keys, recs[i])
  }

  /** A log whose records were signed under whatever keys is a chain under a pair
      of keys exactly when the pair expects each record's own tag. */
  lemma RekeyedExactlyWhen(crypto: Crypto, signers: seq<Option<Key>>, keys: Keys, recs: seq<Json>)
    requires AllSigned(crypto, signers, recs)
    ensures ChainHolds(crypto, keys, recs) <==> RecordsStill(crypto, signers, keys, recs)
  {
    forall i: nat | i < |recs|
      ensures LinkHolds(crypto, keys, recs, i) <==> RecordStill(crypto, signers[i], keys, recs[i])
    {
      assert Signed(crypto, signers[i], recs, i);
    }
  }

  lemma AnchorRekeyedExactlyWhen(crypto: Crypto, k: Option<Key>, keys: Keys, recs: seq<Json>, a: Sidecar)
    requires HexMacs(crypto) && NamesPrefix(crypto, k, recs, a)
    ensures AnchorHolds(crypto, keys, a, |recs|, HeadBefore(recs, |recs|)) <==> AnchorStill(crypto, k, keys, a)
  {
  }

  /** No log, anchor or marker yet; or an anchored log, a key if there ever was
      one, and a pair of keys that expects the anchor's tag and every record's. */
  ghost predicate CanStart(crypto: Crypto, s: System, keys: Keys)
    requires |s.signers| == |Recs(s.disk)|
  {
    if s.disk.log.None? then !s.disk.marker
    else
      && s.disk.sidecar.Anchor? && (s.disk.marker ==> keys.current.Some?)
      && RecordsStill(crypto, s.signers, keys, Recs(s.disk))
      && AnchorStill(crypto, s.anchoredBy, keys, s.disk.sidecar)
  }

  lemma StartsExactlyWhen(crypto: Crypto, s: System, keys: Keys)
    requires HexMacs(crypto) && Sound(crypto, s)
    ensures Startup(crypto, keys, true, s.disk).memory.Some? <==> CanStart(crypto, s, keys)
  {
    var recs, d := Recs(s.disk), s.disk;
    LinesAreRecords(recs);
    SignedLogSeeds(crypto, s.signers, recs);
    RekeyedExactlyWhen(crypto, s.signers, keys, recs);
    VerifierIsItsSpecification(crypto, keys, d.marker || keys.current.Some?, AsLines(recs), d.sidecar);
    if d.sidecar.Anchor? {
      AnchorRekeyedExactlyWhen(crypto, s.anchoredBy, keys, recs, d.sidecar);
    }
  }

  /** Every interruption of every honest run, whatever keys its starts brought,
      restarts under a pair of keys exactly when the pair can start it. */
  lemma RestartsExactlyWhen(crypto: Crypto, steps: seq<Step>, keys: Keys)
    requires HexMacs(crypto) && Honest(crypto, CLEAN, steps)
    ensures |After(crypto, steps).signers| == |Recs(After(crypto, steps).disk)|
    ensures Startup(crypto, keys, true, After(crypto, steps).disk).memory.Some? <==>
            CanStart(crypto, After(crypto, steps), keys)
  {
    AlwaysSound(crypto, CLEAN, steps);
    StartsExactlyWhen(crypto, After(crypto, steps), keys);
  }

  // ----- which runs keep restarting -----

  /** Every record and the anchor were signed under keys of this set. */
  ghost predicate SignedWithin(s: System, ks: set<Option<Key>>) {
    && (forall k :: k in s.signers ==> k in ks) && (s.disk.sidecar.Anchor? ==> s.anchoredBy in ks)
    && (s.memory.Some? || s.pending != [] ==> s.keys.current in ks)
  }

  ghost predicate StartsWithin(steps: seq<Step>, ks: set<Option<Key>>) {
    forall i :: 0 <= i < |steps| && steps[i].Start? ==> steps[i].keys.current in ks
  }

  lemma StepSignsWithin(crypto: Crypto, s: System, step: Step, ks: set<Option<Key>>)
    requires Sound(crypto, s) && SignedWithin(s, ks) && (step.Start? ==> step.keys.current in ks)
    ensures SignedWithin(Next(crypto, s, step), ks)
    ensures s.disk.sidecar.Anchor? ==> Next(crypto, s, step).disk.sidecar.Anchor?
    ensures s.disk.log.Some? ==> Next(crypto, s, step).disk.log.Some?
  {
    if step.Start? && s.memory.None? {
      StartupFindsTail(crypto, s, step.verify, step.keys);
    }
  }

  lemma {:induction false} RunSignsWithin(crypto: Crypto, s: System, steps: seq<Step>, ks: set<Option<Key>>)
    requires HexMacs(crypto) && Sound(crypto, s) && Honest(crypto, s, steps)
    requires SignedWithin(s, ks) && StartsWithin(steps, ks)
    ensures var t := AfterFrom(crypto, s, steps);
            && SignedWithin(t, ks) && (s.disk.sidecar.Anchor? ==> t.disk.sidecar.Anchor?)
            && (s.disk.log.Some? ==> t.disk.log.Some?)
    decreases |steps|
  {
    if steps != [] {
      var front := steps[..|steps| - 1];
      RunSignsWithin(crypto, s, front, ks);
      AlwaysSound(crypto, s, front);
      StepSignsWithin(crypto, AfterFrom(crypto, s, front), steps[|steps| - 1], ks);
    }
  }

  /** What a pair of keys accepts: its current key and its previous one, if any. */
  function Known(keys: Keys): set<Option<Key>>
    requires keys.current.Some?
  {
    {keys.current} + if keys.previous.Some? then {keys.previous} else {}
  }

  /** Signed by known keys only, an anchored log restarts. */
  lemma KnownKeysStart(crypto: Crypto, s: System, keys: Keys)
    requires HexMacs(crypto) && Sound(crypto, s) && keys.current.Some? && SignedWithin(s, Known(keys))
    requires s.disk.log.Some? && s.disk.sidecar.Anchor?
    ensures Startup(crypto, keys, true, s.disk).memory.Some?
  {
    StartsExactlyWhen(crypto, s, keys);
    forall i: nat | i < |Recs(s.disk)| ensures RecordStill(crypto, s.signers[i], keys, Recs(s.disk)[i]) {
      assert Signed(crypto, s.signers[i], Recs(s.disk), i) && s.signers[i] in s.signers;
    }
  }

  /** Different keys never make the same tag. */
  ghost predicate SeparatesKeys(crypto: Crypto) {
    forall k, k', m :: crypto.mac(k, m) == crypto.mac(k', m) ==> k == k'
  }

  /** If tags tell keys apart, a signed, anchored log restarts under a pair of keys
      exactly when each record's signer and the anchor's is one of the two. */
  lemma RotatedRunRestartsExactlyWhen(crypto: Crypto, steps: seq<Step>, keys: Keys)
    requires HexMacs(crypto) && SeparatesKeys(crypto) && Honest(crypto, CLEAN, steps) && keys.current.Some?
    requires var s := After(crypto, steps);
             s.disk.sidecar.Anchor? && s.anchoredBy.Some? && None !in s.signers
    ensures var s := After(crypto, steps);
            Startup(crypto, keys, true, s.disk).memory.Some? <==>
            (forall k :: k in s.signers ==> k in Known(keys)) && s.anchoredBy in Known(keys)
  {
    var s := After(crypto, steps);
    AlwaysSound(crypto, CLEAN, steps);
    StartsExactlyWhen(crypto, s, keys);
    RecordsKnownExactlyWhen(crypto, s.signers, keys, Recs(s.disk));
    StillExactlyKnown(crypto, s.anchoredBy.value, keys, AnchorText(s.disk.sidecar.count, s.disk.sidecar.head));
  }

  lemma StillExactlyKnown(crypto: Crypto, k: Key, keys: Keys, message: Text)
    requires SeparatesKeys(crypto) && keys.current.Some?
    ensures StillTagged(crypto, k, keys, message) <==> Some(k) in Known(keys)
  {
  }

  lemma RecordsKnownExactlyWhen(crypto: Crypto, signers: seq<Option<Key>>, keys: Keys, recs: seq<Json>)
    requires SeparatesKeys(crypto) && keys.current.Some? && AllSigned(crypto, signers, recs) && None !in signers
    ensures RecordsStill(crypto, signers, keys, recs) <==> forall k :: k in signers ==> k in Known(keys)
  {
    forall i: nat | i < |recs|
      ensures RecordStill(crypto, signers[i], keys, recs[i]) <==> signers[i] in Known(keys)
    {
      assert Signed(crypto, signers[i], recs, i) && signers[i] in signers;
      StillExactlyKnown(crypto, signers[i].value, keys, Canonical(recs[i].fields));
    }
  }

  /** One rotation: an anchored log of the old key restarts under the new key with
      the old as previous, and so does every later state of every honest run whose
      starts bring the new key or the old one. */
  lemma RotationKeepsRestarting(crypto: Crypto, s: System, old_: Key, new_: Key, steps: seq<Step>)
    requires HexMacs(crypto) && Sound(crypto, s) && Honest(crypto, s, steps)
    requires s.disk.log.Some? && s.disk.sidecar.Anchor? && SignedWithin(s, {Some(old_)})
    requires StartsWithin(steps, {Some(new_), Some(old_)})
    ensures Startup(crypto, Keys(Some(new_), Some(old_)), true, AfterFrom(crypto, s, steps).disk).memory.Some?
  {
    var keys := Keys(Some(new_), Some(old_));
    RunSignsWithin(crypto, s, steps, Known(keys));
    AlwaysSound(crypto, s, steps);
    KnownKeysStart(crypto, AfterFrom(crypto, s, steps), keys);
  }

  // ----- one pair of keys throughout -----

  ghost predicate OneKeyring(steps: seq<Step>, keys: Keys) {
    forall i :: 0 <= i < |steps| && steps[i].Start? ==> steps[i].keys == keys
  }

  lemma {:induction false} MarkerNeedsKey(crypto: Crypto, steps: seq<Step>, keys: Keys)
    requires OneKeyring(steps, keys)
    ensures After(crypto, steps).disk.marker ==> keys.current.Some?
    decreases |steps|
  {
    if steps != [] { MarkerNeedsKey(crypto, steps[..|steps| - 1], keys); }
  }

  /** Every interruption of an honest run under one pair of keys restarts exactly
      when its first anchor has landed, or nothing at all has been set up yet. */
  lemma InterruptionRestartsExactlyWhen(crypto: Crypto, keys: Keys, steps: seq<Step>)
    requires HexMacs(crypto) && Honest(crypto, CLEAN, steps) && OneKeyring(steps, keys)
    ensures var s := After(crypto, steps);
            Startup(crypto, keys, true, s.disk).memory.Some? <==>
              s.disk.sidecar.Anchor? || (s.disk.log.None? && !s.disk.marker)
  {
    var s := After(crypto, steps);
    AlwaysSound(crypto, CLEAN, steps);
    StartsExactlyWhen(crypto, s, keys);
    MarkerNeedsKey(crypto, steps, keys);
    RunSignsWithin(crypto, CLEAN, steps, {keys.current});
    forall i: nat | i < |Recs(s.disk)| ensures RecordStill(crypto, s.signers[i], keys, Recs(s.disk)[i]) {
      assert Signed(crypto, s.signers[i], Recs(s.disk), i) && s.signers[i] in s.signers;
    }
  }

  lemma AfterOneMore(crypto: Crypto, s: System, steps: seq<Step>, step: Step)
    ensures AfterFrom(crypto, s, steps + [step]) == Next(crypto, AfterFrom(crypto, s, steps), step)
  {
    assert (steps + [step])[..|steps|] == steps;
  }

  lemma FirstStart(crypto: Crypto, keys: Keys)
    ensures After(crypto, [Start(true, keys)])
            == System(Some(Memory(0, GENESIS)), keys, Disk(None, Absent, keys.current.Some?), [], [], None)
  {
    AfterOneMore(crypto, CLEAN, [], Start(true, keys));
    assert [] + [Start(true, keys)] == [Start(true, keys)];
    assert Seed(AsLines([]), 0, GENESIS) == Intact(0, GENESIS);
  }

  /** The refusals this leaves. A record is in the log, its anchor not yet. */
  lemma UnanchoredRecordRefused(crypto: Crypto, keys: Keys, meta: Fields)
    requires HexMacs(crypto)
    ensures var s := After(crypto, [Start(true, keys)] + [AppendRecord(meta, NoFields)] + [Interrupt]);
            Startup(crypto, keys, true, s.disk).memory == None
  {
    var steps := [Start(true, keys)] + [AppendRecord(meta, NoFields)];
    FirstStart(crypto, keys);
    AfterOneMore(crypto, CLEAN, [Start(true, keys)], AppendRecord(meta, NoFields));
    AfterOneMore(crypto, CLEAN, steps, Interrupt);
    PlainStepsAreHonest(crypto, CLEAN, steps + [Interrupt]);
    InterruptionRestartsExactlyWhen(crypto, keys, steps + [Interrupt]);
  }

  /** A keyed engine stopped before its first record: only its marker is left. */
  lemma UnusedKeyedEngineRefused(crypto: Crypto, keys: Keys)
    requires keys.current.Some?
    ensures var s := After(crypto, [Start(true, keys)] + [Interrupt]);
            Startup(crypto, keys, true, s.disk).memory == None
  {
    FirstStart(crypto, keys);
    AfterOneMore(crypto, CLEAN, [Start(true, keys)], Interrupt);
  }

  // ----- a key that is gone -----

  ghost predicate Extends(s: System, t: System) {
    && |s.signers| <= |t.signers| && |s.signers| == |Recs(s.disk)| <= |Recs(t.disk)|
    && t.signers[..|s.signers|] == s.signers && Recs(t.disk)[..|Recs(s.disk)|] == Recs(s.disk)
  }

  lemma StepExtends(crypto: Crypto, s: System, step: Step)
    requires |s.signers| == |Recs(s.disk)|
    ensures Extends(s, Next(crypto, s, step))
  {
    if step.Start? && s.memory.None? {
      assert Startup(crypto, step.keys, step.verify, s.disk).disk.log == s.disk.log;
    }
  }

  /** Records and their signers stay for good. */
  lemma {:induction false} RunExtends(crypto: Crypto, s: System, steps: seq<Step>)
    requires HexMacs(crypto) && Sound(crypto, s) && Honest(crypto, s, steps)
    ensures Extends(s, AfterFrom(crypto, s, steps))
    decreases |steps|
  {
    if steps != [] {
      var front := steps[..|steps| - 1];
      RunExtends(crypto, s, front);
      AlwaysSound(crypto, s, front);
      var t := AfterFrom(crypto, s, front);
      StepExtends(crypto, t, steps[|steps| - 1]);
      ExtendsOn(s, t, AfterFrom(crypto, s, steps));
    }
  }

  lemma ExtendsOn(s: System, t: System, u: System)
    requires Extends(s, t) && Extends(t, u)
    ensures Extends(s, u)
  {
    assert u.signers[..|s.signers|] == u.signers[..|t.signers|][..|s.signers|];
    assert Recs(u.disk)[..|Recs(s.disk)|] == Recs(u.disk)[..|Recs(t.disk)|][..|Recs(s.disk)|];
  }

  /** While one record has a tag the pair of keys does not expect, no verifying
      start succeeds, however the run goes on: verifying signs nothing again. */
  lemma LostKeyRefused(crypto: Crypto, s: System, steps: seq<Step>, keys: Keys, i: nat)
    requires HexMacs(crypto) && Sound(crypto, s) && Honest(crypto, s, steps)
    requires i < |s.signers| && !RecordStill(crypto, s.signers[i], keys, Recs(s.disk)[i])
    ensures Startup(crypto, keys, true, AfterFrom(crypto, s, steps).disk).memory == None
  {
    var t := AfterFrom(crypto, s, steps);
    RunExtends(crypto, s, steps);
    AlwaysSound(crypto, s, steps);
    StartsExactlyWhen(crypto, t, keys);
    assert t.signers[..|s.signers|][i] == t.signers[i] && Recs(t.disk)[..|Recs(s.disk)|][i] == Recs(t.disk)[i];
  }

  /** A log written under one key and accepted with it as previous key; then, after
      any more appends, anchors and restarts, that key is unset or rotated out. */
  lemma UnsetPreviousRefused(crypto: Crypto, k1: Key, k2: Key, next: Keys, meta: Fields, more: seq<Step>)
    requires HexMacs(crypto)
    requires !StillTagged(crypto, k1, next, Canonical(Numbered(meta, 0, GENESIS, NoFields)))
    requires Honest(crypto, Rotated(crypto, k1, k2, meta), more)
    ensures Rotated(crypto, k1, k2, meta).memory.Some?
    ensures Startup(crypto, next, true, AfterFrom(crypto, Rotated(crypto, k1, k2, meta), more).disk).memory == None
  {
    var s, v := WrittenUnder(crypto, k1, meta);
    var both := Keys(Some(k2), Some(k1));
    KnownKeysStart(crypto, s, both);
    StartKeepsSound(crypto, s, true, both);
    LostKeyRefused(crypto, Rotated(crypto, k1, k2, meta), more, next, 0);
  }

  function OneRecord(k: Key, meta: Fields): seq<Step> {
    [Start(true, Keys(Some(k), None))] + [AppendRecord(meta, NoFields)] + [LandAnchor(0)] + [Interrupt]
  }

  /** One record written and anchored under a key, then a restart under another. */
  ghost function Rotated(crypto: Crypto, k1: Key, k2: Key, meta: Fields): System {
    Next(crypto, After(crypto, OneRecord(k1, meta)), Start(true, Keys(Some(k2), Some(k1))))
  }

  lemma WrittenUnder(crypto: Crypto, k: Key, meta: Fields) returns (s: System, v: Json)
    requires HexMacs(crypto)
    ensures s == After(crypto, OneRecord(k, meta)) && Sound(crypto, s) && s.memory.None? && s.pending == []
    ensures s.disk.log == Some([v]) && s.signers == [Some(k)]
    ensures s.disk.sidecar.Anchor? && s.anchoredBy == Some(k)
    ensures v.Obj? && Canonical(v.fields) == Canonical(Numbered(meta, 0, GENESIS, NoFields))
  {
    var keys := Keys(Some(k), None);
    var one := [Start(true, keys)] + [AppendRecord(meta, NoFields)];
    FirstStart(crypto, keys);
    AfterOneMore(crypto, CLEAN, [Start(true, keys)], AppendRecord(meta, NoFields));
    AfterOneMore(crypto, CLEAN, one, LandAnchor(0));
    AfterOneMore(crypto, CLEAN, one + [LandAnchor(0)], Interrupt);
    PlainStepsAreHonest(crypto, CLEAN, OneRecord(k, meta));
    AlwaysSound(crypto, CLEAN, OneRecord(k, meta));
    s := After(crypto, OneRecord(k, meta));
    v := Sealed(crypto, Some(k), Numbered(meta, 0, GENESIS, NoFields));
    SealKeepsBody(crypto, Some(k), Numbered(meta, 0, GENESIS, NoFields));
    assert [] + [v] == [v] && [] + [Some(k)] == [Some(k)];
  }
}
