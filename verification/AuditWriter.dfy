/** The audit engine: how it writes a record, what a record may override, and how
    it starts. */
module AuditWriter {
  import opened Common
  import opened Text
  import opened JsonText
  import opened Dict
  import opened AuditChain

  // ----- the writer -----

  /** A record before its integrity fields: the caller's fields, its number, its
      predecessor's hash, and then whatever extra sets. */
  function Numbered(meta: Fields, seq_: nat, prev: Text, extra: Fields): Fields {
    Update(Put(Put(meta, SEQ, Int(seq_)), PREV_HASH, Str(prev)), extra)
  }

  /** The record as it is persisted: hashed, and tagged when there is a key. */
  function Sealed(crypto: Crypto, key: Option<Key>, fs: Fields): Json {
    var hashed := Put(fs, CHAIN_HASH, Str(crypto.hash(Canonical(fs))));
    Obj(if key.None? then hashed
        else Put(hashed, CHAIN_HMAC, Str(crypto.mac(key.value, Canonical(fs)))))
  }

  function NewAnchor(crypto: Crypto, key: Option<Key>, count: nat, head: Text): Sidecar {
    Anchor(count, head, if key.None? then None else Some(crypto.mac(key.value, AnchorText(count, head))))
  }

  /** Whatever extra says about the number and the link, it says what they are. */
  predicate KeepsLink(crypto: Crypto, extra: Fields, n: nat, head: Text) {
    && (Last(extra, SEQ).Some? ==> EqualsInt(crypto, Last(extra, SEQ), n))
    && (Last(extra, PREV_HASH).Some? ==> Last(extra, PREV_HASH) == Some(Str(head)))
  }

  /** MACs are hex digests. */
  ghost predicate HexMacs(crypto: Crypto) { forall k, m :: Ascii(crypto.mac(k, m)) }

  lemma SealKeepsBody(crypto: Crypto, key: Option<Key>, fs: Fields)
    ensures Body(Sealed(crypto, key, fs).fields) == Body(fs)
  {
    var h, m := Str(crypto.hash(Canonical(fs))), Sealed(crypto, key, fs).fields;
    var hashed := Put(fs, CHAIN_HASH, h);
    WithoutPut(fs, CHAIN_HASH, h);
    if key.Some? {
      var tag := Str(crypto.mac(key.value, Canonical(fs)));
      WithoutSwap(m, CHAIN_HASH, CHAIN_HMAC);
      WithoutPut(hashed, CHAIN_HMAC, tag);
      WithoutSwap(hashed, CHAIN_HASH, CHAIN_HMAC);
    }
  }

  lemma SealedFields(crypto: Crypto, key: Option<Key>, fs: Fields)
    ensures var s := Sealed(crypto, key, fs).fields;
            && Get(s, SEQ) == Get(fs, SEQ) && Get(s, PREV_HASH) == Get(fs, PREV_HASH)
            && Get(s, CHAIN_HASH) == Some(Str(crypto.hash(Canonical(fs))))
            && (key.Some? ==> Get(s, CHAIN_HMAC) == Some(Str(crypto.mac(key.value, Canonical(fs)))))
  {
    KeysDiffer();
    var h := Str(crypto.hash(Canonical(fs)));
    var hashed := Put(fs, CHAIN_HASH, h);
    GetPut(fs, CHAIN_HASH, h, SEQ);
    GetPut(fs, CHAIN_HASH, h, PREV_HASH);
    GetPut(fs, CHAIN_HASH, h, CHAIN_HASH);
    if key.Some? {
      var tag := Str(crypto.mac(key.value, Canonical(fs)));
      GetPut(hashed, CHAIN_HMAC, tag, SEQ);
      GetPut(hashed, CHAIN_HMAC, tag, PREV_HASH);
      GetPut(hashed, CHAIN_HMAC, tag, CHAIN_HASH);
      GetPut(hashed, CHAIN_HMAC, tag, CHAIN_HMAC);
    }
  }

  lemma NumberedFields(meta: Fields, n: nat, prev: Text, extra: Fields)
    ensures var fs := Numbered(meta, n, prev, extra);
            && Get(fs, SEQ) == (if Last(extra, SEQ).Some? then Last(extra, SEQ) else Some(Int(n)))
            && Get(fs, PREV_HASH) == if Last(extra, PREV_HASH).Some? then Last(extra, PREV_HASH) else Some(Str(prev))
  {
    KeysDiffer();
    var fs := Put(Put(meta, SEQ, Int(n)), PREV_HASH, Str(prev));
    GetPut(Put(meta, SEQ, Int(n)), PREV_HASH, Str(prev), SEQ);
    GetPut(Put(meta, SEQ, Int(n)), PREV_HASH, Str(prev), PREV_HASH);
    GetPut(meta, SEQ, Int(n), SEQ);
    GetUpdated(fs, extra, SEQ);
    GetUpdated(fs, extra, PREV_HASH);
  }

  /** A record written at the end of a log is linked to it exactly when extra says
      nothing else about the number and the link. */
  lemma SealedLinksExactlyWhen(crypto: Crypto, keys: Keys, recs: seq<Json>, meta: Fields, extra: Fields)
    requires HexMacs(crypto)
    ensures var head := HeadBefore(recs, |recs|);
            var after := recs + [Sealed(crypto, keys.current, Numbered(meta, |recs|, head, extra))];
            LinkHolds(crypto, keys, after, |recs|) <==> KeepsLink(crypto, extra, |recs|, head)
    ensures var fs := Numbered(meta, |recs|, HeadBefore(recs, |recs|), extra);
            ChainHash(Sealed(crypto, keys.current, fs)) == crypto.hash(Canonical(fs))
  {
    NumberedFields(meta, |recs|, HeadBefore(recs, |recs|), extra);
    SealedLink(crypto, keys, recs, Numbered(meta, |recs|, HeadBefore(recs, |recs|), extra));
  }

  lemma SealedLink(crypto: Crypto, keys: Keys, recs: seq<Json>, fs: Fields)
    requires HexMacs(crypto)
    ensures var rec := Sealed(crypto, keys.current, fs);
            && ChainHash(rec) == crypto.hash(Canonical(fs))
            && (LinkHolds(crypto, keys, recs + [rec], |recs|) <==>
                  EqualsInt(crypto, Get(fs, SEQ), |recs|)
                  && Get(fs, PREV_HASH) == Some(Str(HeadBefore(recs, |recs|))))
  {
    var rec := Sealed(crypto, keys.current, fs);
    SealedFields(crypto, keys.current, fs);
    SealKeepsBody(crypto, keys.current, fs);
    assert HeadBefore(recs + [rec], |recs|) == HeadBefore(recs, |recs|) && (recs + [rec])[|recs|] == rec;
  }

  /** So it makes a chain a longer chain exactly then. */
  lemma AppendExtendsExactlyWhen(crypto: Crypto, keys: Keys, recs: seq<Json>, meta: Fields, extra: Fields)
    requires HexMacs(crypto) && ChainHolds(crypto, keys, recs)
    ensures var head := HeadBefore(recs, |recs|);
            var fs := Numbered(meta, |recs|, head, extra);
            var after := recs + [Sealed(crypto, keys.current, fs)];
            && (ChainHolds(crypto, keys, after) <==> KeepsLink(crypto, extra, |recs|, head))
            && HeadBefore(after, |after|) == crypto.hash(Canonical(fs))
  {
    var rec := Sealed(crypto, keys.current, Numbered(meta, |recs|, HeadBefore(recs, |recs|), extra));
    SealedLinksExactlyWhen(crypto, keys, recs, meta, extra);
    ChainOneMore(crypto, keys, recs, rec);
  }

  lemma LinkSurvives(crypto: Crypto, keys: Keys, recs: seq<Json>, rec: Json, i: nat)
    requires i < |recs| && LinkHolds(crypto, keys, recs, i)
    ensures LinkHolds(crypto, keys, recs + [rec], i)
  {
    assert HeadBefore(recs + [rec], i) == HeadBefore(recs, i) && (recs + [rec])[i] == recs[i];
  }

  lemma ChainOneMore(crypto: Crypto, keys: Keys, recs: seq<Json>, rec: Json)
    requires ChainHolds(crypto, keys, recs)
    ensures ChainHolds(crypto, keys, recs + [rec]) <==> LinkHolds(crypto, keys, recs + [rec], |recs|)
  {
    forall i: nat | i < |recs| ensures LinkHolds(crypto, keys, recs + [rec], i) {
      LinkSurvives(crypto, keys, recs, rec, i);
    }
  }

  /** An extra field with another number, or with another predecessor's hash,
      makes the engine's own verifier refuse the log from then on. */
  lemma OverridingExtraBreaksChain(crypto: Crypto, keys: Keys, recs: seq<Json>, meta: Fields, m: int, h: Text)
    requires HexMacs(crypto) && ChainHolds(crypto, keys, recs)
    ensures var head := HeadBefore(recs, |recs|);
            var numbered := Numbered(meta, |recs|, head, Field(SEQ, Int(m), NoFields));
            var linked := Numbered(meta, |recs|, head, Field(PREV_HASH, Str(h), NoFields));
            && (ChainHolds(crypto, keys, recs + [Sealed(crypto, keys.current, numbered)]) <==> m == |recs|)
            && (ChainHolds(crypto, keys, recs + [Sealed(crypto, keys.current, linked)]) <==> h == head)
  {
    KeysDiffer();
    assert Last(NoFields, SEQ) == None && Last(NoFields, PREV_HASH) == None;
    AppendExtendsExactlyWhen(crypto, keys, recs, meta, Field(SEQ, Int(m), NoFields));
    AppendExtendsExactlyWhen(crypto, keys, recs, meta, Field(PREV_HASH, Str(h), NoFields));
  }

  // ----- the engine and its files -----

  /** The log file when it exists, the sidecar, the HMAC marker; and the running
      engine's next number and previous hash. */
  datatype Disk = Disk(log: Option<seq<Json>>, sidecar: Sidecar, marker: bool)

  datatype Memory = Memory(seq_: nat, prev: Text)

  function Recs(d: Disk): seq<Json> { if d.log.None? then [] else d.log.value }

  function AsLines(recs: seq<Json>): seq<Line> {
    if recs == [] then [] else [Parsed(recs[0])] + AsLines(recs[1..])
  }

  lemma {:induction false} LinesAreRecords(recs: seq<Json>)
    ensures RecordsOf(AsLines(recs)) == recs && AllParse(AsLines(recs))
    decreases |recs|
  {
    if recs != [] {
      LinesAreRecords(recs[1..]);
      AllParseStep(AsLines(recs));
      assert AsLines(recs)[1..] == AsLines(recs[1..]) && recs == [recs[0]] + recs[1..];
    }
  }

  datatype Started = Started(disk: Disk, memory: Option<Memory>)

  /** Startup: None is a refusal. With a key the marker is set before anything
      is verified; a verified log is re-anchored at its tail. */
  function Startup(crypto: Crypto, keys: Keys, verify: bool, d: Disk): Started {
    if verify && d.log.None? && (!d.sidecar.Absent? || d.marker) then Started(d, None)
    else
      var d' := d.(marker := d.marker || keys.current.Some?);
      if verify && d.log.Some? then
        match JudgeLog(crypto, keys, d'.marker, AsLines(d.log.value), d.sidecar)
        case Intact(count, head) =>
          Started(if count > 0 then d'.(sidecar := NewAnchor(crypto, keys.current, count, head)) else d',
                  Some(Memory(count, head)))
        case _ => Started(d', None)
      else
        match Seed(AsLines(Recs(d)), 0, GENESIS)
        case Intact(count, head) => Started(d', Some(Memory(count, head)))
        case _ => Started(d', None)
  }

  class AuditEngine {
    const crypto: Crypto
    const keys: Keys
    const verify: bool
    /** A signing key is required, and running unsigned was not allowed. */
    const requireKey: bool
    var nextSeq: nat
    var prevHash: Text
    var disk: Disk

    constructor (crypto: Crypto, keys: Keys, verify: bool, requireKey: bool, disk: Disk)
      ensures this.crypto == crypto && this.keys == keys && this.verify == verify && this.requireKey == requireKey
      ensures this.disk == disk && nextSeq == 0 && prevHash == GENESIS
    {
      this.crypto, this.keys, this.verify, this.requireKey, this.disk := crypto, keys, verify, requireKey, disk;
      nextSeq, prevHash := 0, GENESIS;
    }

    method OnStartup() returns (ok: bool)
      modifies this
      ensures requireKey && keys.current.None? ==> !ok && disk == old(disk)
      ensures !(requireKey && keys.current.None?) ==>
                var s := Startup(crypto, keys, verify, old(disk));
                && disk == s.disk && ok == s.memory.Some?
                && (ok ==> Memory(nextSeq, prevHash) == s.memory.value)
      ensures !ok ==> nextSeq == old(nextSeq) && prevHash == old(prevHash)
    {
      if requireKey && keys.current.None? {
        return false;
      }
      if verify && disk.log.None? && (!disk.sidecar.Absent? || disk.marker) {
        return false;
      }
      if keys.current.Some? && !disk.marker {
        disk := disk.(marker := true);
      }
      var v: Verdict;
      if verify && disk.log.Some? {
        v := VerifyChain(crypto, keys, disk.marker, AsLines(disk.log.value), disk.sidecar);
        if v.Intact? && v.count > 0 {
          disk := disk.(sidecar := NewAnchor(crypto, keys.current, v.count, v.head));
        }
      } else {
        v := SeedState(AsLines(Recs(disk)));
      }
      if !v.Intact? {
        return false;
      }
      nextSeq, prevHash := v.count, v.head;
      ok := true;
    }

    /** Build the next record and advance the chain in memory. */
    method Write(meta: Fields, extra: Fields) returns (record: Json, newSeq: nat, chainHash: Text)
      modifies this
      ensures var fs := Numbered(meta, old(nextSeq), old(prevHash), extra);
              && record == Sealed(crypto, keys.current, fs) && chainHash == crypto.hash(Canonical(fs))
      ensures newSeq == nextSeq == old(nextSeq) + 1 && prevHash == chainHash && disk == old(disk)
    {
      var fs := Numbered(meta, nextSeq, prevHash, extra);
      chainHash := crypto.hash(Canonical(fs));
      record := Sealed(crypto, keys.current, fs);
      prevHash := chainHash;
      nextSeq := nextSeq + 1;
      newSeq := nextSeq;
    }

    /** Write, persist and anchor, with nothing in between. */
    method Append(meta: Fields, extra: Fields)
      modifies this
      ensures var fs := Numbered(meta, old(nextSeq), old(prevHash), extra);
              && disk == old(disk).(log := Some(Recs(old(disk)) + [Sealed(crypto, keys.current, fs)]),
                                    sidecar := NewAnchor(crypto, keys.current, nextSeq, prevHash))
              && prevHash == crypto.hash(Canonical(fs))
      ensures nextSeq == old(nextSeq) + 1
    {
      var record, newSeq, chainHash := Write(meta, extra);
      disk := disk.(log := Some(Recs(disk) + [record]));
      disk := disk.(sidecar := NewAnchor(crypto, keys.current, newSeq, chainHash));
    }
  }
}
