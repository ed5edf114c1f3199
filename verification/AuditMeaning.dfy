/** What the audit log's verifier, writer and start do, told of the fields of the
    records and of the texts that are hashed and signed. */
module AuditMeaning {
  import opened Common
  import opened Text
  import opened JsonText
  import opened Dict
  import opened AuditChain
  import opened AuditWriter
  import opened AuditRuns

  /** The body holds what the record holds, but for the two integrity fields. */
  ghost predicate BodyOf(body: Fields, fs: Fields) {
    forall k :: Get(body, k) == if k == Lit("chain_hash") || k == Lit("chain_hmac") then None else Get(fs, k)
  }

  lemma BodyHolds(fs: Fields)
    ensures BodyOf(Body(fs), fs)
  {
    forall k ensures Get(Body(fs), k) == if k == CHAIN_HASH || k == CHAIN_HMAC then None else Get(fs, k) {
      GetWithout(fs, CHAIN_HASH, k);
      GetWithout(Without(fs, CHAIN_HASH), CHAIN_HMAC, k);
    }
  }

  // ----- history -----

  /** Two chains that agree on the chain hash of record n agree on every field of
      every record up to it, but for the hash and tag of the record themselves. */
  lemma FieldsCommitted(crypto: Crypto, k: Keys, recs: seq<Json>, k': Keys, recs': seq<Json>, n: nat, i: nat, key: Text)
    requires CollisionFree(crypto) && ChainHolds(crypto, k, recs) && ChainHolds(crypto, k', recs')
    requires forall v :: v in recs || v in recs' ==> Decoded(v)
    requires i <= n < |recs| && n < |recs'| && recs[n].Obj? && recs'[n].Obj?
    requires Get(recs[n].fields, Lit("chain_hash")) == Get(recs'[n].fields, Lit("chain_hash"))
    requires key != Lit("chain_hash") && key != Lit("chain_hmac")
    ensures recs[i].Obj? && recs'[i].Obj? && Get(recs[i].fields, key) == Get(recs'[i].fields, key)
  {
    HistoryCommitment(crypto, k, recs, k', recs', n + 1, i);
    BodyHolds(recs[i].fields);
    BodyHolds(recs'[i].fields);
  }

  // ----- the anchor -----

  /** Tags tell messages apart, under whatever keys. */
  ghost predicate SeparatesMessages(crypto: Crypto) {
    forall k, k', m, m' :: crypto.mac(k, m) == crypto.mac(k', m') ==> m == m'
  }

  /** The first dot is the one after the number. */
  lemma FirstDot(c: int, h: Text)
    ensures var t := AnchorText(c, h);
            && (forall k :: 0 <= k < |IntText(c)| ==> t[k] != '.' as int)
            && t[|IntText(c)|] == '.' as int
            && t[..|IntText(c)|] == IntText(c) && t[|IntText(c)| + 1..] == h
  {
    var t := AnchorText(c, h);
    assert forall k :: 0 <= k < |IntText(c)| ==> t[k] == IntText(c)[k];
  }

  lemma AnchorTextInjective(c: int, h: Text, c': int, h': Text)
    requires AnchorText(c, h) == AnchorText(c', h')
    ensures c == c' && h == h'
  {
    FirstDot(c, h);
    FirstDot(c', h');
    assert |IntText(c)| == |IntText(c')|;
    IntTextInjective(c, c');
  }

  /** An accepted sidecar whose tag was made, under any key, for a count and a head
      has that count and head; the log is at least as long, and if not longer ends
      with that head. */
  lemma TagBindsAnchor(crypto: Crypto, keys: Keys, marker: bool, lines: seq<Line>, s: Sidecar,
                       key: Key, c: int, h: Text)
    requires SeparatesMessages(crypto) && keys.current.Some?
    requires s.Anchor? && s.mac == Some(crypto.mac(key, IntText(c) + Lit(".") + h))
    requires JudgeLog(crypto, keys, marker, lines, s).Intact?
    ensures s.count == c && s.head == h
    ensures var v := JudgeLog(crypto, keys, marker, lines, s); c <= v.count && (c == v.count ==> v.head == h)
  {
    VerifierIsItsSpecification(crypto, keys, marker, lines, s);
    assert IntText(c) + Lit(".") + h == AnchorText(c, h) by { assert Lit(".") == ['.' as int]; }
    AnchorTextInjective(s.count, s.head, c, h);
  }

  /** So whatever a sidecar claims, no log with fewer records than its tag was made
      for is accepted. */
  lemma TruncationRefused(crypto: Crypto, keys: Keys, marker: bool, lines: seq<Line>, s: Sidecar,
                          key: Key, c: int, h: Text)
    requires SeparatesMessages(crypto) && keys.current.Some?
    requires s.Anchor? && s.mac == Some(crypto.mac(key, IntText(c) + Lit(".") + h))
    requires |RecordsOf(lines)| < c
    ensures !JudgeLog(crypto, keys, marker, lines, s).Intact?
  {
    if JudgeLog(crypto, keys, marker, lines, s).Intact? {
      VerifierIsItsSpecification(crypto, keys, marker, lines, s);
      TagBindsAnchor(crypto, keys, marker, lines, s, key, c, h);
    }
  }

  /** In every honest run: once an anchor made under a key has landed, no log with
      fewer records than it counts is accepted with its tag, whatever count and
      head are put beside the tag. */
  lemma TruncatedRunRefused(crypto: Crypto, steps: seq<Step>, keys: Keys, marker: bool, lines: seq<Line>, s: Sidecar)
    requires HexMacs(crypto) && SeparatesMessages(crypto) && Honest(crypto, CLEAN, steps) && keys.current.Some?
    requires var t := After(crypto, steps);
             && t.disk.sidecar.Anchor? && t.anchoredBy.Some?
             && s.Anchor? && s.mac == t.disk.sidecar.mac && |RecordsOf(lines)| < t.disk.sidecar.count
    ensures !JudgeLog(crypto, keys, marker, lines, s).Intact?
  {
    AlwaysSound(crypto, CLEAN, steps);
    var t := After(crypto, steps);
    var c, h := t.disk.sidecar.count, t.disk.sidecar.head;
    assert IntText(c) + Lit(".") + h == AnchorText(c, h) by { assert Lit(".") == ['.' as int]; }
    TruncationRefused(crypto, keys, marker, lines, s, t.anchoredBy.value, c, h);
  }

  // ----- the verifier -----

  /** The chain hash that the next record has to name: 64 zeros at first. */
  ghost predicate Follows(crypto: Crypto, recs: seq<Json>, n: nat, head: Text)
    requires n <= |recs|
  {
    if n == 0 then |head| == 64 && forall i :: 0 <= i < 64 ==> head[i] == '0' as int
    else recs[n - 1].Obj? && Get(recs[n - 1].fields, Lit("chain_hash")) == Some(Str(head))
  }

  /** The value is the number, as Python compares them. */
  predicate IsNumber(crypto: Crypto, v: Option<Json>, n: int) {
    || v == Some(Int(n)) || (v == Some(Bool(false)) && n == 0) || (v == Some(Bool(true)) && n == 1)
    || (v.Some? && v.value.Float? && crypto.floatIs(v.value.lit, n))
  }

  /** The tag is the message's, under the current key or the previous one. */
  ghost predicate Tags(crypto: Crypto, keys: Keys, tag: Option<Json>, message: Text) {
    keys.current.None? ||
    exists k :: Some(k) in {keys.current, keys.previous} && tag == Some(Str(crypto.mac(k, message)))
  }

  /** Record i is an object numbered i, names the chain hash before it, and carries
      the hash of its body and its tag. */
  ghost predicate Linked(crypto: Crypto, keys: Keys, recs: seq<Json>, i: nat)
    requires i < |recs|
  {
    && recs[i].Obj? && IsNumber(crypto, Get(recs[i].fields, Lit("seq")), i)
    && (exists head :: Follows(crypto, recs, i, head) && Get(recs[i].fields, Lit("prev_hash")) == Some(Str(head)))
    && var body := Body(recs[i].fields);
    && BodyOf(body, recs[i].fields)
    && Get(recs[i].fields, Lit("chain_hash")) == Some(Str(crypto.hash(Dumps(Obj(body)))))
    && Tags(crypto, keys, Get(recs[i].fields, Lit("chain_hmac")), Dumps(Obj(body)))
  }

  lemma GenesisIsZeros(head: Text)
    ensures head == GENESIS <==> |head| == 64 && forall i :: 0 <= i < 64 ==> head[i] == '0' as int
  {
  }

  lemma LinkedIs(crypto: Crypto, keys: Keys, recs: seq<Json>, i: nat)
    requires HexMacs(crypto) && i < |recs|
    requires i > 0 ==> LinkHolds(crypto, keys, recs, i - 1)
    ensures LinkHolds(crypto, keys, recs, i) <==> Linked(crypto, keys, recs, i)
  {
    forall head ensures Follows(crypto, recs, i, head) <==> head == HeadBefore(recs, i) { GenesisIsZeros(head); }
    if recs[i].Obj? {
      var fs := recs[i].fields;
      BodyHolds(fs);
      TagsIs(crypto, keys, Get(fs, CHAIN_HMAC), Canonical(fs));
    }
  }

  lemma TagsIs(crypto: Crypto, keys: Keys, tag: Option<Json>, message: Text)
    requires HexMacs(crypto)
    ensures TagChecks(crypto, keys, tag, message) <==> Tags(crypto, keys, tag, message)
  {
    if keys.current.Some? { assert Some(keys.current.value) == keys.current; }
    if keys.previous.Some? { assert Some(keys.previous.value) == keys.previous; }
  }

  lemma {:induction false} AllLinkedIs(crypto: Crypto, keys: Keys, recs: seq<Json>, n: nat)
    requires HexMacs(crypto) && n <= |recs|
    ensures (forall i: nat :: i < n ==> LinkHolds(crypto, keys, recs, i)) <==>
            forall i: nat :: i < n ==> Linked(crypto, keys, recs, i)
    decreases n
  {
    if n > 0 {
      AllLinkedIs(crypto, keys, recs, n - 1);
      if forall i: nat :: i < n - 1 ==> LinkHolds(crypto, keys, recs, i) {
        LinkedIs(crypto, keys, recs, n - 1);
      }
    }
  }

  /** The sidecar is missing beside an empty log, or is tagged for its own count and
      head, no longer than the log, and at its full length with its head. */
  ghost predicate Anchored(crypto: Crypto, keys: Keys, recs: seq<Json>, s: Sidecar) {
    match s
    case Absent => recs == []
    case Anchor(c, h, mac) =>
      && c <= |recs| && (c == |recs| ==> Follows(crypto, recs, |recs|, h))
      && Tags(crypto, keys, if mac.Some? then Some(Str(mac.value)) else None, IntText(c) + Lit(".") + h)
    case _ => false
  }

  /** The verifier accepts exactly the logs whose every line that is not blank parses
      and is linked to those before it, with an anchor that fits. */
  lemma IntactExactlyWhen(crypto: Crypto, keys: Keys, marker: bool, lines: seq<Line>, s: Sidecar)
    requires HexMacs(crypto)
    ensures JudgeLog(crypto, keys, marker, lines, s).Intact? <==>
            && (marker ==> keys.current.Some?) && (forall i :: 0 <= i < |lines| ==> lines[i] != Garbage)
            && (forall i: nat :: i < |RecordsOf(lines)| ==> Linked(crypto, keys, RecordsOf(lines), i))
            && Anchored(crypto, keys, RecordsOf(lines), s)
  {
    var recs := RecordsOf(lines);
    VerifierIsItsSpecification(crypto, keys, marker, lines, s);
    AllLinkedIs(crypto, keys, recs, |recs|);
    if ChainHolds(crypto, keys, recs) { AnchoredIs(crypto, keys, recs, s); }
  }

  lemma AnchoredIs(crypto: Crypto, keys: Keys, recs: seq<Json>, s: Sidecar)
    requires HexMacs(crypto) && ChainHolds(crypto, keys, recs)
    ensures AnchorHolds(crypto, keys, s, |recs|, HeadBefore(recs, |recs|)) <==> Anchored(crypto, keys, recs, s)
  {
    if s.Anchor? {
      assert |recs| > 0 ==> LinkHolds(crypto, keys, recs, |recs| - 1);
      GenesisIsZeros(s.head);
      assert Follows(crypto, recs, |recs|, s.head) <==> s.head == HeadBefore(recs, |recs|);
      assert IntText(s.count) + Lit(".") + s.head == AnchorText(s.count, s.head) by { assert Lit(".") == ['.' as int]; }
      TagsIs(crypto, keys, AnchorTag(s), AnchorText(s.count, s.head));
    }
  }

  // ----- the writer -----

  /** A written record keeps, under every name, what extra last gives for it, else
      its number and link, else what the caller gives; its hash and tag are those
      of all the rest. */
  lemma WrittenRecord(crypto: Crypto, key: Option<Key>, meta: Fields, n: nat, prev: Text, extra: Fields, k: Text)
    ensures var fs := Sealed(crypto, key, Numbered(meta, n, prev, extra)).fields;
            && BodyOf(Body(fs), fs)
            && Get(fs, k) ==
               if k == Lit("chain_hash") then Some(Str(crypto.hash(Dumps(Obj(Body(fs))))))
               else if k == Lit("chain_hmac") && key.Some? then Some(Str(crypto.mac(key.value, Dumps(Obj(Body(fs))))))
               else if Last(extra, k).Some? then Last(extra, k)
               else if k == Lit("seq") then Some(Int(n))
               else if k == Lit("prev_hash") then Some(Str(prev))
               else Get(meta, k)
  {
    KeysDiffer();
    var fs := Numbered(meta, n, prev, extra);
    var whole := Sealed(crypto, key, fs).fields;
    BodyHolds(whole);
    SealKeepsBody(crypto, key, fs);
    SealedFields(crypto, key, fs);
    GetPut(fs, CHAIN_HASH, Str(crypto.hash(Canonical(fs))), k);
    if key.Some? {
      GetPut(Put(fs, CHAIN_HASH, Str(crypto.hash(Canonical(fs)))), CHAIN_HMAC,
             Str(crypto.mac(key.value, Canonical(fs))), k);
    }
    GetUpdated(Put(Put(meta, SEQ, Int(n)), PREV_HASH, Str(prev)), extra, k);
    GetPut(Put(meta, SEQ, Int(n)), PREV_HASH, Str(prev), k);
    GetPut(meta, SEQ, Int(n), k);
  }

  // ----- the start -----

  /** The seed reader succeeds exactly when every line is blank or an object with a
      chain hash, and then counts the objects and has the last one's hash. */
  lemma {:induction false} SeedSucceedsExactlyWhen(lines: seq<Line>, count: nat, prev: Text)
    ensures Seed(lines, count, prev).Intact? <==>
            forall i :: 0 <= i < |lines| ==>
              lines[i].Blank? || (lines[i].Parsed? && lines[i].v.Obj?
                                  && Get(lines[i].v.fields, Lit("chain_hash")).Some?)
    ensures Seed(lines, count, prev).Intact? ==>
            && Seed(lines, count, prev).count == count + |RecordsOf(lines)|
            && (RecordsOf(lines) == [] ==> Seed(lines, count, prev).head == prev)
            && forall h :: EndsIn(RecordsOf(lines), h) ==> Seed(lines, count, prev).head == h
    decreases |lines|
  {
    if lines != [] {
      assert forall i :: 0 < i < |lines| ==> lines[i] == lines[1..][i - 1];
      if Seeds(lines[0]) {
        SeedSucceedsExactlyWhen(lines[1..], if lines[0].Blank? then count else count + 1,
                                if lines[0].Blank? then prev else ChainHash(lines[0].v));
        EndsLater(if lines[0].Parsed? then [lines[0].v] else [], RecordsOf(lines[1..]));
      }
    }
  }

  lemma EndsLater(first: seq<Json>, recs: seq<Json>)
    ensures forall h :: EndsIn(first + recs, h) ==> if recs == [] then EndsIn(first, h) else EndsIn(recs, h)
  {
    if recs == [] {
      assert first + recs == first;
    } else {
      assert (first + recs)[|first + recs| - 1] == recs[|recs| - 1];
    }
  }

  predicate EndsIn(recs: seq<Json>, head: Text) {
    && recs != [] && recs[|recs| - 1].Obj?
    && Get(recs[|recs| - 1].fields, Lit("chain_hash")) == Some(Str(head))
  }

  /** A verifying start succeeds exactly without any trace of a log, or with one
      that is linked and anchored, with the key if one was ever used; and a log
      that is gone while its anchor or its marker is left is refused. */
  lemma VerifyingStartExactlyWhen(crypto: Crypto, keys: Keys, d: Disk)
    requires HexMacs(crypto)
    ensures Startup(crypto, keys, true, d).memory.Some? <==>
            match d.log
            case None => d.sidecar == Absent && !d.marker
            case Some(recs) =>
              && (d.marker ==> keys.current.Some?)
              && (forall i: nat :: i < |recs| ==> Linked(crypto, keys, recs, i))
              && Anchored(crypto, keys, recs, d.sidecar)
  {
    if d.log.Some? {
      LinesAreRecords(d.log.value);
      IntactExactlyWhen(crypto, keys, d.marker || keys.current.Some?, AsLines(d.log.value), d.sidecar);
    }
  }

  /** What a start leaves: the log as it was, the marker with a key, memory at the
      log's end, and a new anchor when a log with records was verified. */
  lemma StartLeaves(crypto: Crypto, keys: Keys, verify: bool, d: Disk)
    requires HexMacs(crypto) && Startup(crypto, keys, verify, d).memory.Some?
    ensures var t, recs := Startup(crypto, keys, verify, d), if d.log.Some? then d.log.value else [];
            && t.disk.log == d.log && t.disk.marker == (d.marker || keys.current.Some?)
            && t.memory.value.seq_ == |recs|
            && (verify && recs != [] ==>
                  && Follows(crypto, recs, |recs|, t.memory.value.prev)
                  && t.disk.sidecar == Anchor(|recs|, t.memory.value.prev,
                       if keys.current.None? then None
                       else Some(crypto.mac(keys.current.value, IntText(|recs|) + Lit(".") + t.memory.value.prev))))
            && (!verify || recs == [] ==> t.disk.sidecar == d.sidecar)
  {
    var recs := if d.log.Some? then d.log.value else [];
    var lines := AsLines(recs);
    LinesAreRecords(recs);
    if verify && d.log.Some? {
      var marker := d.marker || keys.current.Some?;
      VerifierIsItsSpecification(crypto, keys, marker, lines, d.sidecar);
      if recs != [] {
        var head := HeadBefore(recs, |recs|);
        assert LinkHolds(crypto, keys, recs, |recs| - 1);
        assert IntText(|recs|) + Lit(".") + head == AnchorText(|recs|, head) by { assert Lit(".") == ['.' as int]; }
      }
    } else {
      SeedSucceedsExactlyWhen(lines, 0, GENESIS);
    }
  }
}
