/** The audit log's verifier, its seed-state reader and the declarative chain
    predicate both must agree with; and what an accepted log commits to. */
module AuditChain {
  import opened Common
  import opened Text
  import opened JsonText
  import opened Dict

  type Key = Text

  /** The digest and the MAC, and whether a float literal equals an integer. */
  datatype Crypto = Crypto(hash: Text -> Text, mac: (Key, Text) -> Text, floatIs: (Text, int) -> bool)

  datatype Keys = Keys(current: Option<Key>, previous: Option<Key>)

  function Zeros(n: nat): (t: Text)
    ensures |t| == n && forall i :: 0 <= i < n ==> t[i] == '0' as int
  {
    seq(n, i => '0' as int)
  }

  const GENESIS: Text := Zeros(64)
  const SEQ: Text := Lit("seq")
  const PREV_HASH: Text := Lit("prev_hash")
  const CHAIN_HASH: Text := Lit("chain_hash")
  const CHAIN_HMAC: Text := Lit("chain_hmac")

  lemma KeysDiffer()
    ensures SEQ != PREV_HASH && SEQ != CHAIN_HASH && SEQ != CHAIN_HMAC
    ensures PREV_HASH != CHAIN_HASH && PREV_HASH != CHAIN_HMAC && CHAIN_HASH != CHAIN_HMAC
  {
    assert |SEQ| == 3 && |PREV_HASH| == 9 && |CHAIN_HASH| == 10 && |CHAIN_HMAC| == 10;
    assert CHAIN_HASH[7] == 'a' as int && CHAIN_HMAC[7] == 'm' as int;
  }

  /** A record without its two integrity fields. */
  function Body(fs: Fields): Fields { Without(Without(fs, CHAIN_HASH), CHAIN_HMAC) }

  function Canonical(fs: Fields): Text { Dumps(Obj(Body(fs))) }

  /** A line of the log file as the reader sees it. */
  datatype Line = Blank | Garbage | Parsed(v: Json)

  /** The sidecar file: absent, not JSON or without usable count and head, of a
      shape that cannot be indexed at all, or an anchor with an optional MAC. */
  datatype Sidecar = Absent | Unreadable | Misshapen | Anchor(count: int, head: Text, mac: Option<Text>)

  /** Refused is the classified AuditChainError; Crashed any other exception. */
  datatype Verdict = Intact(count: nat, head: Text) | Refused | Crashed

  /** Python equality of a field with an integer. */
  predicate EqualsInt(crypto: Crypto, v: Option<Json>, n: int) {
    v.Some? && match v.value
      case Int(m) => m == n
      case Bool(b) => n == if b then 1 else 0
      case Float(lit) => crypto.floatIs(lit, n)
      case _ => false
  }

  datatype Check = Good | Bad | Broken

  /** The MAC check of one stored tag under the current or previous key. */
  function CheckTag(crypto: Crypto, keys: Keys, tag: Option<Json>, message: Text): Check {
    if keys.current.None? then Good
    else if tag.None? || tag.value.Null? then Bad
    else if !tag.value.Str? || !Ascii(tag.value.s) then Broken
    else if tag.value.s == crypto.mac(keys.current.value, message) then Good
    else if keys.previous.Some? && tag.value.s == crypto.mac(keys.previous.value, message) then Good
    else Bad
  }

  /** The verifier's checks of one parsed line, in its order. */
  function CheckRecord(crypto: Crypto, keys: Keys, v: Json, count: nat, prev: Text): Check {
    if !v.Obj? then Broken
    else if !EqualsInt(crypto, Get(v.fields, SEQ), count) then Bad
    else if Get(v.fields, PREV_HASH) != Some(Str(prev)) then Bad
    else if Get(v.fields, CHAIN_HASH) != Some(Str(crypto.hash(Canonical(v.fields)))) then Bad
    else CheckTag(crypto, keys, Get(v.fields, CHAIN_HMAC), Canonical(v.fields))
  }

  function AnchorText(count: int, head: Text): Text { IntText(count) + Char('.') + head }

  /** The high-water-mark rules against a log of this count and head. */
  function CheckAnchor(crypto: Crypto, keys: Keys, s: Sidecar, count: nat, head: Text): Check {
    match s
    case Absent => if count > 0 then Bad else Good
    case Unreadable => Bad
    case Misshapen => Broken
    case Anchor(c, h, _) =>
      var tag := CheckTag(crypto, keys, AnchorTag(s), AnchorText(c, h));
      if tag != Good then tag
      else if count < c || (count == c && head != h) then Bad
      else Good
  }

  // ----- the declarative predicate -----

  function RecordsOf(lines: seq<Line>): seq<Json> {
    if lines == [] then []
    else (if lines[0].Parsed? then [lines[0].v] else []) + RecordsOf(lines[1..])
  }

  function ChainHash(v: Json): Text {
    if v.Obj? && Get(v.fields, CHAIN_HASH).Some? && Get(v.fields, CHAIN_HASH).value.Str?
    then Get(v.fields, CHAIN_HASH).value.s else []
  }

  /** The chain hash that precedes record i. */
  function HeadBefore(recs: seq<Json>, i: nat): Text
    requires i <= |recs|
  {
    if i == 0 then GENESIS else ChainHash(recs[i - 1])
  }

  /** The tag is, under the current or the previous key, the message's MAC. */
  ghost predicate TagChecks(crypto: Crypto, keys: Keys, tag: Option<Json>, message: Text) {
    keys.current.None? || TagUnder(crypto, keys.current, tag, message) || TagUnder(crypto, keys.previous, tag, message)
  }

  predicate TagUnder(crypto: Crypto, key: Option<Key>, tag: Option<Json>, message: Text) {
    && key.Some? && Ascii(crypto.mac(key.value, message))
    && tag == Some(Str(crypto.mac(key.value, message)))
  }

  /** Record i is numbered i, names its predecessor's hash, carries its own, and
      its tag checks under the current or previous key. */
  ghost predicate LinkHolds(crypto: Crypto, keys: Keys, recs: seq<Json>, i: nat)
    requires i < |recs|
  {
    && recs[i].Obj?
    && EqualsInt(crypto, Get(recs[i].fields, SEQ), i)
    && Get(recs[i].fields, PREV_HASH) == Some(Str(HeadBefore(recs, i)))
    && Get(recs[i].fields, CHAIN_HASH) == Some(Str(crypto.hash(Canonical(recs[i].fields))))
    && TagChecks(crypto, keys, Get(recs[i].fields, CHAIN_HMAC), Canonical(recs[i].fields))
  }

  ghost predicate ChainHolds(crypto: Crypto, keys: Keys, recs: seq<Json>) {
    forall i: nat :: i < |recs| ==> LinkHolds(crypto, keys, recs, i)
  }

  function AnchorTag(s: Sidecar): Option<Json>
    requires s.Anchor?
  {
    if s.mac.None? then None else Some(Str(s.mac.value))
  }

  ghost predicate AnchorHolds(crypto: Crypto, keys: Keys, s: Sidecar, count: nat, head: Text) {
    || (s.Absent? && count == 0)
    || (&& s.Anchor?
        && s.count <= count && (s.count == count ==> s.head == head)
        && TagChecks(crypto, keys, AnchorTag(s), AnchorText(s.count, s.head)))
  }

  predicate AllParse(lines: seq<Line>) { forall i :: 0 <= i < |lines| ==> !lines[i].Garbage? }

  /** What an acceptable log is. */
  ghost predicate Acceptable(crypto: Crypto, keys: Keys, marker: bool, lines: seq<Line>, s: Sidecar) {
    && (marker ==> keys.current.Some?)
    && AllParse(lines)
    && ChainHolds(crypto, keys, RecordsOf(lines))
    && AnchorHolds(crypto, keys, s, |RecordsOf(lines)|, HeadBefore(RecordsOf(lines), |RecordsOf(lines)|))
  }

  // ----- the verifier and the seed reader -----

  /** How the loop's verdict unfolds from a count and a previous hash. */
  function Judge(crypto: Crypto, keys: Keys, lines: seq<Line>, count: nat, prev: Text): Verdict {
    if lines == [] then Intact(count, prev)
    else match lines[0]
      case Blank => Judge(crypto, keys, lines[1..], count, prev)
      case Garbage => Refused
      case Parsed(v) =>
        match CheckRecord(crypto, keys, v, count, prev)
        case Good => Judge(crypto, keys, lines[1..], count + 1, ChainHash(v))
        case Bad => Refused
        case Broken => Crashed
  }

  function JudgeLog(crypto: Crypto, keys: Keys, marker: bool, lines: seq<Line>, s: Sidecar): Verdict {
    if marker && keys.current.None? then Refused
    else
      var v := Judge(crypto, keys, lines, 0, GENESIS);
      if !v.Intact? then v
      else match CheckAnchor(crypto, keys, s, v.count, v.head)
        case Good => v
        case Bad => Refused
        case Broken => Crashed
  }

  method VerifyChain(crypto: Crypto, keys: Keys, marker: bool, lines: seq<Line>, s: Sidecar) returns (v: Verdict)
    ensures v == JudgeLog(crypto, keys, marker, lines, s)
  {
    if marker && keys.current.None? {
      return Refused;
    }
    var prev: Text, count: nat := GENESIS, 0;
    for i := 0 to |lines|
      invariant Judge(crypto, keys, lines, 0, GENESIS) == Judge(crypto, keys, lines[i..], count, prev)
    {
      assert lines[i..][0] == lines[i] && lines[i..][1..] == lines[i + 1..];
      match lines[i] {
        case Blank =>
        case Garbage => return Refused;
        case Parsed(entry) =>
          match CheckRecord(crypto, keys, entry, count, prev) {
            case Good =>
              prev := ChainHash(entry);
              count := count + 1;
            case Bad => return Refused;
            case Broken => return Crashed;
          }
      }
    }
    match CheckAnchor(crypto, keys, s, count, prev) {
      case Good => return Intact(count, prev);
      case Bad => return Refused;
      case Broken => return Crashed;
    }
  }

  lemma TagAgrees(crypto: Crypto, keys: Keys, tag: Option<Json>, message: Text)
    ensures CheckTag(crypto, keys, tag, message) == Good <==> TagChecks(crypto, keys, tag, message)
  {
  }

  lemma RecordAgrees(crypto: Crypto, keys: Keys, recs: seq<Json>, i: nat)
    requires i < |recs|
    ensures CheckRecord(crypto, keys, recs[i], i, HeadBefore(recs, i)) == Good <==>
            LinkHolds(crypto, keys, recs, i)
  {
    if recs[i].Obj? {
      TagAgrees(crypto, keys, Get(recs[i].fields, CHAIN_HMAC), Canonical(recs[i].fields));
    }
  }

  lemma AnchorAgrees(crypto: Crypto, keys: Keys, s: Sidecar, count: nat, head: Text)
    ensures CheckAnchor(crypto, keys, s, count, head) == Good <==> AnchorHolds(crypto, keys, s, count, head)
  {
    if s.Anchor? {
      TagAgrees(crypto, keys, AnchorTag(s), AnchorText(s.count, s.head));
    }
  }

  ghost predicate LinksHoldFrom(crypto: Crypto, keys: Keys, recs: seq<Json>, from: nat) {
    forall i: nat :: from <= i < |recs| ==> LinkHolds(crypto, keys, recs, i)
  }

  /** The rest of the loop succeeds exactly when the remaining lines parse and
      the links of the records they add hold. */
  lemma {:induction false} JudgeAgrees(crypto: Crypto, keys: Keys, done: seq<Json>, lines: seq<Line>)
    ensures Judge(crypto, keys, lines, |done|, HeadBefore(done, |done|)).Intact? <==>
            AllParse(lines) && LinksHoldFrom(crypto, keys, done + RecordsOf(lines), |done|)
    ensures Judge(crypto, keys, lines, |done|, HeadBefore(done, |done|)).Intact? ==>
            Judge(crypto, keys, lines, |done|, HeadBefore(done, |done|))
            == Intact(|done + RecordsOf(lines)|, HeadBefore(done + RecordsOf(lines), |done + RecordsOf(lines)|))
    decreases |lines|
  {
    if lines == [] {
      assert done + RecordsOf(lines) == done;
    } else if lines[0].Parsed? {
      var recs, next := done + RecordsOf(lines), done + [lines[0].v];
      ParsedRecords(done, lines);
      RecordAgrees(crypto, keys, recs, |done|);
      LinksFromNext(crypto, keys, recs, |done|);
      JudgeAgrees(crypto, keys, next, lines[1..]);
      AllParseStep(lines);
    } else {
      assert RecordsOf(lines) == RecordsOf(lines[1..]);
      JudgeAgrees(crypto, keys, done, lines[1..]);
      AllParseStep(lines);
    }
  }

  lemma ParsedRecords(done: seq<Json>, lines: seq<Line>)
    requires lines != [] && lines[0].Parsed?
    ensures var recs, next := done + RecordsOf(lines), done + [lines[0].v];
            && recs == next + RecordsOf(lines[1..]) && |done| < |recs| && recs[|done|] == lines[0].v
            && HeadBefore(recs, |done|) == HeadBefore(done, |done|)
            && HeadBefore(next, |next|) == ChainHash(lines[0].v)
  {
    var v, rest := lines[0].v, RecordsOf(lines[1..]);
    assert RecordsOf(lines) == [v] + rest;
    OneAfter(done, v, rest);
    HeadKept(done, done + ([v] + rest));
  }

  lemma OneAfter(done: seq<Json>, v: Json, rest: seq<Json>)
    ensures done + ([v] + rest) == done + [v] + rest && (done + ([v] + rest))[|done|] == v
    ensures (done + ([v] + rest))[..|done|] == done
  {
  }

  lemma HeadKept(done: seq<Json>, recs: seq<Json>)
    requires |done| <= |recs| && recs[..|done|] == done
    ensures HeadBefore(recs, |done|) == HeadBefore(done, |done|)
  {
    if done != [] { assert recs[|done| - 1] == recs[..|done|][|done| - 1]; }
  }

  lemma LinksFromNext(crypto: Crypto, keys: Keys, recs: seq<Json>, from: nat)
    requires from < |recs|
    ensures LinksHoldFrom(crypto, keys, recs, from) <==>
            LinkHolds(crypto, keys, recs, from) && LinksHoldFrom(crypto, keys, recs, from + 1)
  {
  }

  lemma AllParseStep(lines: seq<Line>)
    requires lines != []
    ensures AllParse(lines) <==> !lines[0].Garbage? && AllParse(lines[1..])
  {
    assert forall i :: 0 < i < |lines| ==> lines[i] == lines[1..][i - 1];
  }

  /** The verifier returns normally exactly on acceptable logs, with the number
      of records and the last chain hash. */
  lemma VerifierIsItsSpecification(crypto: Crypto, keys: Keys, marker: bool, lines: seq<Line>, s: Sidecar)
    ensures JudgeLog(crypto, keys, marker, lines, s).Intact? <==> Acceptable(crypto, keys, marker, lines, s)
    ensures JudgeLog(crypto, keys, marker, lines, s).Intact? ==>
            JudgeLog(crypto, keys, marker, lines, s)
            == Intact(|RecordsOf(lines)|, HeadBefore(RecordsOf(lines), |RecordsOf(lines)|))
  {
    var recs := RecordsOf(lines);
    JudgeAgrees(crypto, keys, [], lines);
    assert [] + recs == recs;
    AnchorAgrees(crypto, keys, s, |recs|, HeadBefore(recs, |recs|));
  }

  /** Whether indexing a parsed line by a text key gives a field, is the
      KeyError that is classified, or the TypeError that is not. */
  function Seed(lines: seq<Line>, count: nat, prev: Text): Verdict {
    if lines == [] then Intact(count, prev)
    else match lines[0]
      case Blank => Seed(lines[1..], count, prev)
      case Garbage => Refused
      case Parsed(v) =>
        if !v.Obj? then Crashed
        else if Get(v.fields, CHAIN_HASH).None? then Refused
        else Seed(lines[1..], count + 1, ChainHash(v))
  }

  method SeedState(lines: seq<Line>) returns (v: Verdict)
    ensures v == Seed(lines, 0, GENESIS)
  {
    var prev: Text, count: nat := GENESIS, 0;
    for i := 0 to |lines|
      invariant Seed(lines, 0, GENESIS) == Seed(lines[i..], count, prev)
    {
      assert lines[i..][0] == lines[i] && lines[i..][1..] == lines[i + 1..];
      match lines[i] {
        case Blank =>
        case Garbage => return Refused;
        case Parsed(entry) =>
          if !entry.Obj? {
            return Crashed;
          }
          if Get(entry.fields, CHAIN_HASH).None? {
            return Refused;
          }
          prev := ChainHash(entry);
          count := count + 1;
      }
    }
    v := Intact(count, prev);
  }

  lemma {:induction false} SeedFollowsJudge(crypto: Crypto, keys: Keys, lines: seq<Line>, count: nat, prev: Text)
    requires Judge(crypto, keys, lines, count, prev).Intact?
    ensures Seed(lines, count, prev) == Judge(crypto, keys, lines, count, prev)
    decreases |lines|
  {
    if lines != [] {
      if lines[0].Parsed? {
        SeedFollowsJudge(crypto, keys, lines[1..], count + 1, ChainHash(lines[0].v));
      } else {
        SeedFollowsJudge(crypto, keys, lines[1..], count, prev);
      }
    }
  }

  /** On every accepted log the seed reader finds the same count and head. */
  lemma SeedAgreesOnAccepted(crypto: Crypto, keys: Keys, marker: bool, lines: seq<Line>, s: Sidecar)
    requires Acceptable(crypto, keys, marker, lines, s)
    ensures Seed(lines, 0, GENESIS) == JudgeLog(crypto, keys, marker, lines, s)
  {
    VerifierIsItsSpecification(crypto, keys, marker, lines, s);
    SeedFollowsJudge(crypto, keys, lines, 0, GENESIS);
  }

  // ----- the exceptions that are not classified -----

  ghost predicate Passes(crypto: Crypto, keys: Keys, lines: seq<Line>) {
    AllParse(lines) && ChainHolds(crypto, keys, RecordsOf(lines))
  }

  /** A stored tag, not null, that is not ASCII text. */
  predicate Incomparable(keys: Keys, tag: Option<Json>) {
    keys.current.Some? && tag.Some? && !tag.value.Null? && !(tag.value.Str? && Ascii(tag.value.s))
  }

  /** A line after these records that is not an object, or is a record that is
      linked to them and has an incomparable tag. */
  predicate Derails(crypto: Crypto, keys: Keys, recs: seq<Json>, v: Json) {
    || !v.Obj?
    || (&& EqualsInt(crypto, Get(v.fields, SEQ), |recs|)
        && Get(v.fields, PREV_HASH) == Some(Str(HeadBefore(recs, |recs|)))
        && Get(v.fields, CHAIN_HASH) == Some(Str(crypto.hash(Canonical(v.fields))))
        && Incomparable(keys, Get(v.fields, CHAIN_HMAC)))
  }

  ghost predicate DerailsAt(crypto: Crypto, keys: Keys, lines: seq<Line>, i: nat)
    requires i < |lines|
  {
    && Passes(crypto, keys, lines[..i]) && lines[i].Parsed?
    && Derails(crypto, keys, RecordsOf(lines[..i]), lines[i].v)
  }

  predicate SidecarDerails(keys: Keys, s: Sidecar) {
    s.Misshapen? || (s.Anchor? && Incomparable(keys, AnchorTag(s)))
  }

  lemma {:induction false} JudgeSplit(crypto: Crypto, keys: Keys, lines: seq<Line>, count: nat, prev: Text, i: nat)
    requires i <= |lines| && Judge(crypto, keys, lines[..i], count, prev).Intact?
    ensures var v := Judge(crypto, keys, lines[..i], count, prev);
            Judge(crypto, keys, lines, count, prev) == Judge(crypto, keys, lines[i..], v.count, v.head)
    decreases i
  {
    if i == 0 {
      assert lines[0..] == lines && lines[..0] == [];
    } else {
      assert lines[..i][0] == lines[0] && lines[..i][1..] == lines[1..][..i - 1] && lines[i..] == lines[1..][i - 1..];
      if lines[0].Parsed? {
        JudgeSplit(crypto, keys, lines[1..], count + 1, ChainHash(lines[0].v), i - 1);
      } else {
        JudgeSplit(crypto, keys, lines[1..], count, prev, i - 1);
      }
    }
  }

  lemma {:induction false} CrashPoint(crypto: Crypto, keys: Keys, lines: seq<Line>, count: nat, prev: Text)
    returns (i: nat)
    requires Judge(crypto, keys, lines, count, prev) == Crashed
    ensures i < |lines| && Judge(crypto, keys, lines[..i], count, prev).Intact? && lines[i].Parsed?
    ensures var v := Judge(crypto, keys, lines[..i], count, prev);
            CheckRecord(crypto, keys, lines[i].v, v.count, v.head) == Broken
    decreases |lines|
  {
    if lines[0].Parsed? && CheckRecord(crypto, keys, lines[0].v, count, prev) == Broken {
      i := 0;
      assert lines[..0] == [];
    } else {
      if lines[0].Parsed? {
        i := CrashPoint(crypto, keys, lines[1..], count + 1, ChainHash(lines[0].v));
      } else {
        i := CrashPoint(crypto, keys, lines[1..], count, prev);
      }
      i := i + 1;
      assert lines[..i][0] == lines[0] && lines[..i][1..] == lines[1..][..i - 1];
    }
  }

  lemma PassesExactlyWhen(crypto: Crypto, keys: Keys, lines: seq<Line>)
    ensures Judge(crypto, keys, lines, 0, GENESIS).Intact? <==> Passes(crypto, keys, lines)
    ensures Passes(crypto, keys, lines) ==>
            Judge(crypto, keys, lines, 0, GENESIS)
            == Intact(|RecordsOf(lines)|, HeadBefore(RecordsOf(lines), |RecordsOf(lines)|))
  {
    JudgeAgrees(crypto, keys, [], lines);
    assert [] + RecordsOf(lines) == RecordsOf(lines);
  }

  lemma LoopCrashesExactlyWhen(crypto: Crypto, keys: Keys, lines: seq<Line>)
    ensures Judge(crypto, keys, lines, 0, GENESIS) == Crashed <==>
            exists i :: 0 <= i < |lines| && DerailsAt(crypto, keys, lines, i)
  {
    if Judge(crypto, keys, lines, 0, GENESIS) == Crashed {
      var i := CrashPoint(crypto, keys, lines, 0, GENESIS);
      PassesExactlyWhen(crypto, keys, lines[..i]);
      assert DerailsAt(crypto, keys, lines, i);
    }
    if exists i :: 0 <= i < |lines| && DerailsAt(crypto, keys, lines, i) {
      var i :| 0 <= i < |lines| && DerailsAt(crypto, keys, lines, i);
      PassesExactlyWhen(crypto, keys, lines[..i]);
      JudgeSplit(crypto, keys, lines, 0, GENESIS, i);
    }
  }

  /** The verifier raises something other than its classified error exactly when
      the first line that does not pass derails it, or when all lines pass and
      the sidecar does. */
  lemma CrashesExactlyWhen(crypto: Crypto, keys: Keys, marker: bool, lines: seq<Line>, s: Sidecar)
    ensures JudgeLog(crypto, keys, marker, lines, s) == Crashed <==>
            (&& (marker ==> keys.current.Some?)
             && (|| (exists i :: 0 <= i < |lines| && DerailsAt(crypto, keys, lines, i))
                 || (Passes(crypto, keys, lines) && SidecarDerails(keys, s))))
  {
    LoopCrashesExactlyWhen(crypto, keys, lines);
    PassesExactlyWhen(crypto, keys, lines);
  }

  /** A line that is a bare number is enough, for the seed reader as well. */
  lemma NumberLineCrashes(crypto: Crypto, keys: Keys, marker: bool)
    requires marker ==> keys.current.Some?
    ensures JudgeLog(crypto, keys, marker, [Parsed(Int(5))], Absent) == Crashed
    ensures Seed([Parsed(Int(5))], 0, GENESIS) == Crashed
  {
  }

  /** The line gives the seed reader a chain hash, or nothing to read. */
  predicate Seeds(line: Line) {
    line.Blank? || (line.Parsed? && line.v.Obj? && Get(line.v.fields, CHAIN_HASH).Some?)
  }

  predicate AllSeed(lines: seq<Line>) { forall i :: 0 <= i < |lines| ==> Seeds(lines[i]) }

  /** So does the seed reader exactly at a first failing line that is no object. */
  lemma {:induction false} SeedCrashesExactlyWhen(lines: seq<Line>, count: nat, prev: Text)
    ensures Seed(lines, count, prev) == Crashed <==>
            exists i :: 0 <= i < |lines| && AllSeed(lines[..i]) && lines[i].Parsed? && !lines[i].v.Obj?
    decreases |lines|
  {
    if lines != [] {
      if Seeds(lines[0]) {
        SeedCrashesExactlyWhen(lines[1..], if lines[0].Blank? then count else count + 1,
                               if lines[0].Blank? then prev else ChainHash(lines[0].v));
        forall i | 0 < i < |lines| ensures AllSeed(lines[..i]) <==> AllSeed(lines[1..][..i - 1]) {
          assert lines[..i] == [lines[0]] + lines[1..][..i - 1];
        }
        CrashLater(lines);
      } else {
        assert forall i :: 0 < i < |lines| ==> lines[..i][0] == lines[0];
        assert lines[..0] == [];
      }
    }
  }

  lemma CrashLater(lines: seq<Line>)
    requires lines != [] && Seeds(lines[0])
    requires forall i :: 0 < i < |lines| ==> (AllSeed(lines[..i]) <==> AllSeed(lines[1..][..i - 1]))
    ensures (exists i :: 0 <= i < |lines| && AllSeed(lines[..i]) && lines[i].Parsed? && !lines[i].v.Obj?) <==>
            exists i :: 0 <= i < |lines[1..]| && AllSeed(lines[1..][..i]) && lines[1..][i].Parsed?
                        && !lines[1..][i].v.Obj?
  {
    if i :| 0 <= i < |lines| && AllSeed(lines[..i]) && lines[i].Parsed? && !lines[i].v.Obj? {
      assert lines[1..][i - 1] == lines[i];
    }
    if i :| 0 <= i < |lines[1..]| && AllSeed(lines[1..][..i]) && lines[1..][i].Parsed? && !lines[1..][i].v.Obj? {
      assert lines[1..][i] == lines[i + 1];
      assert AllSeed(lines[..i + 1]);
    }
  }

  // ----- what an accepted log commits to -----

  ghost predicate CollisionFree(crypto: Crypto) {
    forall a, b :: crypto.hash(a) == crypto.hash(b) ==> a == b
  }

  lemma BodyKeepsLink(fs: Fields)
    ensures Get(Body(fs), PREV_HASH) == Get(fs, PREV_HASH)
  {
    KeysDiffer();
    GetWithout(fs, CHAIN_HASH, PREV_HASH);
    GetWithout(Without(fs, CHAIN_HASH), CHAIN_HMAC, PREV_HASH);
  }

  /** Records with the same chain hash have the same body. */
  lemma HashFixesBody(crypto: Crypto, v: Json, w: Json)
    requires CollisionFree(crypto) && v.Obj? && w.Obj? && Decoded(v) && Decoded(w)
    requires crypto.hash(Canonical(v.fields)) == crypto.hash(Canonical(w.fields))
    ensures Body(v.fields) == Body(w.fields)
  {
    WithoutDecoded(v.fields, CHAIN_HASH);
    WithoutDecoded(Without(v.fields, CHAIN_HASH), CHAIN_HMAC);
    WithoutDecoded(w.fields, CHAIN_HASH);
    WithoutDecoded(Without(w.fields, CHAIN_HASH), CHAIN_HMAC);
    DumpsInjective(Obj(Body(v.fields)), Obj(Body(w.fields)));
  }

  /** Two chains that agree on the hash before record n agree on every body
      before it, whatever keys they were checked under. */
  lemma {:induction false} HistoryCommitment(crypto: Crypto, k: Keys, recs: seq<Json>, k': Keys, recs': seq<Json>,
                                             n: nat, i: nat)
    requires CollisionFree(crypto)
    requires ChainHolds(crypto, k, recs) && ChainHolds(crypto, k', recs')
    requires forall v :: v in recs || v in recs' ==> Decoded(v)
    requires i < n <= |recs| && n <= |recs'| && HeadBefore(recs, n) == HeadBefore(recs', n)
    ensures recs[i].Obj? && recs'[i].Obj? && Body(recs[i].fields) == Body(recs'[i].fields)
    decreases n
  {
    assert LinkHolds(crypto, k, recs, n - 1) && LinkHolds(crypto, k', recs', n - 1);
    HashFixesBody(crypto, recs[n - 1], recs'[n - 1]);
    if i < n - 1 {
      BodyKeepsLink(recs[n - 1].fields);
      BodyKeepsLink(recs'[n - 1].fields);
      HistoryCommitment(crypto, k, recs, k', recs', n - 1, i);
    }
  }

  /** An accepted log with exactly as many records as its anchor counts is, body
      for body, the accepted log the anchor was taken from. */
  lemma AnchorPinsLog(crypto: Crypto, k: Keys, lines: seq<Line>, marker: bool, s: Sidecar,
                      k': Keys, taken: seq<Json>, i: nat)
    requires CollisionFree(crypto)
    requires Acceptable(crypto, k, marker, lines, s) && ChainHolds(crypto, k', taken)
    requires forall v :: v in RecordsOf(lines) || v in taken ==> Decoded(v)
    requires s.Anchor? && s.count == |taken| && s.head == HeadBefore(taken, |taken|)
    requires |RecordsOf(lines)| == s.count && i < |taken|
    ensures RecordsOf(lines)[i].Obj? && taken[i].Obj?
    ensures Body(RecordsOf(lines)[i].fields) == Body(taken[i].fields)
  {
    HistoryCommitment(crypto, k, RecordsOf(lines), k', taken, |taken|, i);
  }
}
