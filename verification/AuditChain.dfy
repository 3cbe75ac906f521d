/** The tamper-evident audit log: appending, verification, external anchors, and the independent segment check. */
module AuditChains {
  import opened Wrappers

  /** The predecessor of the first entry: 64 zeros. */
  function GenesisPrevHash(): string {
    seq(64, _ => '0')
  }

  datatype Payload = Payload(
    seqNo: nat, timestampUtc: string, operatorId: string, caseId: string,
    operation: string, targetDescriptor: string, result: string)

  datatype AuditEntry = AuditEntry(payload: Payload, prevHash: string, entryHash: string)

  /** The serialisation of payloads and the digest, both as the libraries provide them. */
  datatype Hasher = Hasher(toJson: Payload -> string, sha256Hex: string -> string)
  {
    /** The text that is hashed for an entry. */
    function Message(payload: Payload, prevHash: string): string {
      toJson(payload) + "||" + prevHash
    }

    function CalculateHash(payload: Payload, prevHash: string): string {
      sha256Hex(Message(payload, prevHash))
    }

    /** No serialisation begins with another one: a JSON object ends where its braces close. */
    ghost predicate SelfDelimiting() {
      forall p, q | p != q :: !(toJson(p) <= toJson(q))
    }
  }

  datatype AuditError =
    | SequenceGap(expected: nat, found: nat)
    | ChainBrokenAtSeq(seqNo: nat, expectedPrev: string, foundPrev: string)
    | HashMismatchAtSeq(seqNo: nat, computed: string, recorded: string)
    | AnchorMismatch(seqNo: nat)
    | InvalidSignature
    | EmptyLog
    | StorageFailure

  datatype ChainReport = ChainReport(totalEntries: nat, firstSeq: nat, latestSeq: nat, latestHash: string)

  // ----- the chain

  function PrevOf(log: seq<AuditEntry>, i: nat): string
    requires i <= |log|
  {
    if i == 0 then GenesisPrevHash() else log[i - 1].entryHash
  }

  /** What is wrong with entry `i`, in the order of the checks. */
  function Fault(h: Hasher, log: seq<AuditEntry>, i: nat): Option<AuditError>
    requires i < |log|
  {
    var e := log[i];
    var computed := h.CalculateHash(e.payload, e.prevHash);
    if e.payload.seqNo != i + 1 then Some(SequenceGap(i + 1, e.payload.seqNo))
    else if e.prevHash != PrevOf(log, i) then Some(ChainBrokenAtSeq(e.payload.seqNo, PrevOf(log, i), e.prevHash))
    else if e.entryHash != computed then Some(HashMismatchAtSeq(e.payload.seqNo, computed, e.entryHash))
    else None
  }

  ghost predicate Intact(h: Hasher, log: seq<AuditEntry>) {
    forall i | 0 <= i < |log| :: Fault(h, log, i) == None
  }

  function ReportOf(log: seq<AuditEntry>): ChainReport {
    if log == [] then ChainReport(0, 0, 0, GenesisPrevHash())
    else ChainReport(|log|, 1, |log|, log[|log| - 1].entryHash)
  }

  predicate SixtyFourZeros(s: string) {
    |s| == 64 && forall k | 0 <= k < 64 :: s[k] == '0'
  }

  /** The entry has the number of its place, names the hash before it, or 64 zeros, and has the hash of its text. */
  predicate EntryIntact(h: Hasher, log: seq<AuditEntry>, i: nat)
    requires i < |log|
  {
    && log[i].payload.seqNo == i + 1
    && (if i == 0 then SixtyFourZeros(log[i].prevHash) else log[i].prevHash == log[i - 1].entryHash)
    && log[i].entryHash == h.sha256Hex(h.toJson(log[i].payload) + "||" + log[i].prevHash)
  }

  lemma IntactIff(h: Hasher, log: seq<AuditEntry>)
    ensures Intact(h, log) <==> forall i | 0 <= i < |log| :: EntryIntact(h, log, i)
  {
    forall i | 0 <= i < |log|
      ensures Fault(h, log, i) == None <==> EntryIntact(h, log, i)
    {
      GenesisIs(log[i].prevHash);
    }
    hide Fault, EntryIntact;
  }

  lemma GenesisIs(s: string)
    ensures s == GenesisPrevHash() <==> SixtyFourZeros(s)
  {}

  /** Walks the log and stops at the first fault. */
  method VerifyEntries(h: Hasher, log: seq<AuditEntry>) returns (r: Result<ChainReport, AuditError>)
    ensures r.Ok? <==> Intact(h, log)
    ensures r.Err? ==>
      exists i | 0 <= i < |log| :: Fault(h, log, i) == Some(r.error)
        && forall j | 0 <= j < i :: Fault(h, log, j) == None
    ensures r.Ok? ==> r.value == ReportOf(log)
    ensures r.Ok? <==> forall i | 0 <= i < |log| :: EntryIntact(h, log, i)
    ensures r.Ok? && log == [] ==>
      r.value.totalEntries == r.value.firstSeq == r.value.latestSeq == 0 && SixtyFourZeros(r.value.latestHash)
    ensures r.Ok? && log != [] ==>
      && r.value.totalEntries == r.value.latestSeq == |log| && r.value.firstSeq == 1
      && r.value.latestHash == log[|log| - 1].entryHash
  {
    IntactIff(h, log);
    if log == [] {
      return Ok(ChainReport(0, 0, 0, seq(64, _ => '0')));
    }
    var expectedPrev := seq(64, _ => '0');
    for i := 0 to |log|
      invariant expectedPrev == PrevOf(log, i)
      invariant forall j | 0 <= j < i :: Fault(h, log, j) == None
    {
      var entry := log[i];
      if entry.payload.seqNo != i + 1 {
        assert Fault(h, log, i) == Some(SequenceGap(i + 1, entry.payload.seqNo));
        return Err(SequenceGap(i + 1, entry.payload.seqNo));
      }
      if entry.prevHash != expectedPrev {
        assert Fault(h, log, i) == Some(ChainBrokenAtSeq(entry.payload.seqNo, expectedPrev, entry.prevHash));
        return Err(ChainBrokenAtSeq(entry.payload.seqNo, expectedPrev, entry.prevHash));
      }
      var computed := h.CalculateHash(entry.payload, entry.prevHash);
      if entry.entryHash != computed {
        assert Fault(h, log, i) == Some(HashMismatchAtSeq(entry.payload.seqNo, computed, entry.entryHash));
        return Err(HashMismatchAtSeq(entry.payload.seqNo, computed, entry.entryHash));
      }
      expectedPrev := entry.entryHash;
    }
    assert Fault(h, log, 0) == None && Fault(h, log, |log| - 1) == None;
    r := Ok(ChainReport(|log|, log[0].payload.seqNo, log[|log| - 1].payload.seqNo, log[|log| - 1].entryHash));
  }

  /** The entry that continues a log. */
  function NextEntry(h: Hasher, log: seq<AuditEntry>, details: Payload): AuditEntry {
    var seqNo := if log == [] then 1 else log[|log| - 1].payload.seqNo + 1;
    var payload := details.(seqNo := seqNo);
    AuditEntry(payload, PrevOf(log, |log|), h.CalculateHash(payload, PrevOf(log, |log|)))
  }

  /** Appending keeps a log intact. */
  lemma AppendKeepsIntact(h: Hasher, log: seq<AuditEntry>, details: Payload)
    requires Intact(h, log)
    ensures Intact(h, log + [NextEntry(h, log, details)])
  {
    hide Hasher.CalculateHash;
    var log' := log + [NextEntry(h, log, details)];
    if log != [] {
      assert Fault(h, log, |log| - 1) == None;
    }
    forall i | 0 <= i < |log'|
      ensures Fault(h, log', i) == None
    {
      assert i < |log| ==> Fault(h, log, i) == None;
    }
  }

  /** The log after these events have been appended to an empty one. */
  function LogOf(h: Hasher, events: seq<Payload>): (log: seq<AuditEntry>)
    ensures |log| == |events|
  {
    if events == [] then []
    else
      var front := LogOf(h, events[..|events| - 1]);
      front + [NextEntry(h, front, events[|events| - 1])]
  }

  /** Every log that was only appended to passes verification, and keeps all that was written. */
  lemma {:induction false} EveryLogIsIntact(h: Hasher, events: seq<Payload>)
    ensures Intact(h, LogOf(h, events))
    ensures forall i | 0 <= i < |events| :: LogOf(h, events)[i].payload == events[i].(seqNo := i + 1)
  {
    if events != [] {
      var front := events[..|events| - 1];
      EveryLogIsIntact(h, front);
      hide Intact;
      AppendKeepsIntact(h, LogOf(h, front), events[|events| - 1]);
    }
  }

  /** The audit table, whose rows are read in the order of their numbers. */
  class AuditLog {
    const hasher: Hasher
    const accepts: nat -> bool
    var attempts: nat
    var entries: seq<AuditEntry>

    constructor (hasher: Hasher, accepts: nat -> bool)
      ensures this.hasher == hasher && this.accepts == accepts && entries == []
    {
      this.hasher, this.accepts, attempts, entries := hasher, accepts, 0, [];
    }

    /** Links a new event to the head of the chain; a failing insertion leaves the table as it was. */
    method Append(details: Payload) returns (r: Result<AuditEntry, AuditError>)
      modifies this
      ensures r.Ok? ==> r.value == NextEntry(hasher, old(entries), details) && entries == old(entries) + [r.value]
      ensures r.Err? ==> r.error == StorageFailure && entries == old(entries)
      ensures Intact(hasher, old(entries)) ==> Intact(hasher, entries)
    {
      var seqNo, prevHash := 1, GenesisPrevHash();
      if entries != [] {
        var latest := entries[|entries| - 1];
        seqNo, prevHash := latest.payload.seqNo + 1, latest.entryHash;
      }
      var payload := details.(seqNo := seqNo);
      var entry := AuditEntry(payload, prevHash, hasher.CalculateHash(payload, prevHash));
      attempts := attempts + 1;
      if !accepts(attempts) {
        return Err(StorageFailure);
      }
      if Intact(hasher, entries) {
        AppendKeepsIntact(hasher, entries, details);
      }
      entries := entries + [entry];
      r := Ok(entry);
    }
  }

  // ----- what a hash pins down

  ghost predicate Collision(h: Hasher, x: string, y: string) {
    x != y && h.sha256Hex(x) == h.sha256Hex(y)
  }

  lemma PrefixesCompare(m: string, a: string, b: string)
    requires a <= m && b <= m
    ensures a <= b || b <= a
  {}

  /** Messages of different entries differ, although the predecessor's hash may hold any text. */
  lemma MessagesDiffer(h: Hasher, p: Payload, x: string, q: Payload, y: string)
    requires h.SelfDelimiting() && h.Message(p, x) == h.Message(q, y)
    ensures p == q && x == y
  {
    var m, jp, jq := h.Message(p, x), h.toJson(p), h.toJson(q);
    assert m[..|jp|] == jp && m[..|jq|] == jq;
    PrefixesCompare(m, jp, jq);
    assert m[|jp| + 2..] == x && m[|jq| + 2..] == y;
  }

  /** Equal hashes of two correctly hashed entries: the entries are equal, or their messages collide. */
  lemma EqualHashes(h: Hasher, a: AuditEntry, b: AuditEntry)
    requires h.SelfDelimiting() && a.entryHash == b.entryHash
    requires a.entryHash == h.CalculateHash(a.payload, a.prevHash)
      && b.entryHash == h.CalculateHash(b.payload, b.prevHash)
    ensures a == b || Collision(h, h.Message(a.payload, a.prevHash), h.Message(b.payload, b.prevHash))
  {
    if h.Message(a.payload, a.prevHash) == h.Message(b.payload, b.prevHash) {
      MessagesDiffer(h, a.payload, a.prevHash, b.payload, b.prevHash);
    }
  }

  /** Some entry of `a` and some entry of `b` hash different messages to the same digest. */
  ghost predicate LogsCollide(h: Hasher, a: seq<AuditEntry>, b: seq<AuditEntry>) {
    exists i, j | 0 <= i < |a| && 0 <= j < |b| ::
      Collision(h, h.Message(a[i].payload, a[i].prevHash), h.Message(b[j].payload, b[j].prevHash))
  }

  // ----- segments: what the independent verifier accepts

  /** The number follows the predecessor's, or is the entry's position. */
  predicate NumberAccepted(segment: seq<AuditEntry>, i: nat)
    requires i < |segment|
  {
    || segment[i].payload.seqNo == i + 1 || i == 0
    || segment[i].payload.seqNo == segment[i - 1].payload.seqNo + 1
  }

  /** The entry names its predecessor's hash, except in the first place, and its own hash is correct. */
  predicate EntryLinked(h: Hasher, segment: seq<AuditEntry>, i: nat)
    requires i < |segment|
  {
    && (i > 0 ==> segment[i].prevHash == segment[i - 1].entryHash)
    && segment[i].entryHash == h.CalculateHash(segment[i].payload, segment[i].prevHash)
  }

  ghost predicate Linked(h: Hasher, segment: seq<AuditEntry>) {
    forall i | 0 <= i < |segment| :: EntryLinked(h, segment, i)
  }

  /** The verifier's continuity check. */
  ghost predicate SegmentAccepted(h: Hasher, segment: seq<AuditEntry>) {
    segment != [] && Linked(h, segment) && forall i | 0 <= i < |segment| :: NumberAccepted(segment, i)
  }

  method CheckSegment(h: Hasher, segment: seq<AuditEntry>) returns (pass: bool)
    ensures pass <==> SegmentAccepted(h, segment)
  {
    hide Hasher.CalculateHash;
    if segment == [] {
      return false;
    }
    var expectedPrev := GenesisPrevHash();
    for i := 0 to |segment|
      invariant i > 0 ==> expectedPrev == segment[i - 1].entryHash
      invariant forall j | 0 <= j < i :: NumberAccepted(segment, j) && EntryLinked(h, segment, j)
    {
      var entry := segment[i];
      var expectedSeq := i + 1;
      if entry.payload.seqNo != expectedSeq && i > 0 && entry.payload.seqNo != segment[i - 1].payload.seqNo + 1 {
        assert !NumberAccepted(segment, i);
        return false;
      }
      if i > 0 && entry.prevHash != expectedPrev {
        assert !EntryLinked(h, segment, i);
        return false;
      }
      if h.CalculateHash(entry.payload, entry.prevHash) != entry.entryHash {
        assert !EntryLinked(h, segment, i);
        return false;
      }
      expectedPrev := entry.entryHash;
    }
    pass := true;
  }

  /** Two linked segments that end in the same hash agree backwards as far as both reach, or collide. */
  lemma {:induction false} SameHeadSamePast(h: Hasher, a: seq<AuditEntry>, b: seq<AuditEntry>, n: nat)
    requires h.SelfDelimiting() && Linked(h, a) && Linked(h, b) && 0 < n <= |a| && n <= |b|
    requires a[|a| - 1].entryHash == b[|b| - 1].entryHash && !LogsCollide(h, a, b)
    ensures a[|a| - n..] == b[|b| - n..]
  {
    var x, y := a[|a| - n], b[|b| - n];
    assert EntryLinked(h, a, |a| - n) && EntryLinked(h, b, |b| - n);
    if n > 1 {
      SameHeadSamePast(h, a, b, n - 1);
      assert a[|a| - n + 1] == a[|a| - (n - 1)..][0] == b[|b| - (n - 1)..][0] == b[|b| - n + 1];
      assert EntryLinked(h, a, |a| - n + 1) && EntryLinked(h, b, |b| - n + 1);
      assert a[|a| - n + 1].prevHash == x.entryHash && b[|b| - n + 1].prevHash == y.entryHash;
      assert a[|a| - n..] == [x] + a[|a| - (n - 1)..];
      assert b[|b| - n..] == [y] + b[|b| - (n - 1)..];
    } else {
      assert a[|a| - n..] == [x] && b[|b| - n..] == [y];
    }
    EqualHashes(h, x, y);
  }

  lemma IntactIsLinked(h: Hasher, log: seq<AuditEntry>, lo: nat, hi: nat)
    requires Intact(h, log) && lo <= hi <= |log|
    ensures Linked(h, log[lo..hi])
    ensures forall i | lo <= i < hi :: log[i].payload.seqNo == i + 1
  {
    hide Hasher.CalculateHash;
    var s := log[lo..hi];
    forall i | 0 <= i < |s|
      ensures Fault(h, log, lo + i) == None && s[i] == log[lo + i]
    {}
    forall i | lo <= i < hi
      ensures log[i].payload.seqNo == i + 1
    {
      assert Fault(h, log, i) == None;
    }
  }

  /** The verifier accepts every non-empty slice of an intact log. */
  lemma SlicesAreAccepted(h: Hasher, log: seq<AuditEntry>, lo: nat, hi: nat)
    requires Intact(h, log) && lo < hi <= |log|
    ensures SegmentAccepted(h, log[lo..hi])
  {
    IntactIsLinked(h, log, lo, hi);
    hide Linked, Intact;
    forall i | 0 < i < hi - lo
      ensures NumberAccepted(log[lo..hi], i)
    {
      assert log[lo + i].payload.seqNo == lo + i + 1 && log[lo + i - 1].payload.seqNo == lo + i;
    }
  }

  /**
   * An accepted segment whose last hash is that of an entry of an intact log is the slice of the log that ends
   * there, unless two hashed messages collide. So its numbers are consecutive, which the check alone does not ensure.
   */
  lemma SegmentIsSlice(h: Hasher, segment: seq<AuditEntry>, log: seq<AuditEntry>, k: nat)
    requires h.SelfDelimiting() && SegmentAccepted(h, segment) && Intact(h, log)
    requires |segment| <= k <= |log| && segment[|segment| - 1].entryHash == log[k - 1].entryHash
    requires !LogsCollide(h, segment, log[..k])
    ensures segment == log[k - |segment|..k]
  {
    IntactIsLinked(h, log, 0, k);
    assert log[0..k] == log[..k];
    hide Intact, LogsCollide;
    SameHeadSamePast(h, segment, log[..k], |segment|);
    assert segment[0..] == segment;
    assert log[..k][k - |segment|..] == log[k - |segment|..k];
  }

  /**
   * The numbers of an accepted segment are consecutive exactly when it starts at 1 or never falls back on positions.
   */
  lemma SegmentConsecutiveIff(h: Hasher, segment: seq<AuditEntry>)
    requires SegmentAccepted(h, segment)
    ensures (forall i | 0 <= i < |segment| :: segment[i].payload.seqNo == segment[0].payload.seqNo + i)
      <==> segment[0].payload.seqNo == 1 || forall i | 0 < i < |segment| :: segment[i].payload.seqNo != i + 1
  {
    hide Linked;
    if segment[0].payload.seqNo == 1 || forall i | 0 < i < |segment| :: segment[i].payload.seqNo != i + 1 {
      for i := 0 to |segment|
        invariant forall j | 0 <= j < i :: segment[j].payload.seqNo == segment[0].payload.seqNo + j
      {
        assert NumberAccepted(segment, i);
        if i > 0 {
          assert segment[i - 1].payload.seqNo == segment[0].payload.seqNo + (i - 1);
        }
      }
    }
  }

  /** An accepted segment whose numbers go back: the second is its position and no more. */
  lemma NumbersCanGoBack(h: Hasher, details: Payload) returns (segment: seq<AuditEntry>)
    ensures SegmentAccepted(h, segment)
    ensures |segment| == 2 && segment[0].payload.seqNo == 5 && segment[1].payload.seqNo == 2
  {
    var first, second := details.(seqNo := 5), details.(seqNo := 2);
    var link := h.CalculateHash(first, "");
    segment := [AuditEntry(first, "", link), AuditEntry(second, link, h.CalculateHash(second, link))];
  }

  // ----- external anchors

  datatype Anchor = Anchor(
    caseId: string, sequence: nat, chainHeadHash: string, timestampUtc: string, operatorId: string)
  {
    /** The text that is signed. */
    function SigningText(): string {
      "VAJRA_ANCHOR_V1:" + Joined(caseId, Joined(Decimal(sequence),
        Joined(chainHeadHash, Joined(timestampUtc, operatorId))))
    }
  }

  function Joined(field: string, rest: string): string {
    field + ":" + rest
  }

  function Decimal(n: nat): (r: string)
    ensures |r| != 0
  {
    var digit := ('0' as int + n % 10) as char;
    if n < 10 then [digit] else Decimal(n / 10) + [digit]
  }

  function ExportAnchor(log: seq<AuditEntry>, caseId: string, timestampUtc: string, operatorId: string):
    (r: Result<Anchor, AuditError>)
    ensures r.Ok? <==> log != []
    ensures r.Ok? ==>
      && r.value.caseId == caseId && r.value.timestampUtc == timestampUtc && r.value.operatorId == operatorId
      && r.value.sequence == log[|log| - 1].payload.seqNo && r.value.chainHeadHash == log[|log| - 1].entryHash
  {
    if log == [] then Err(EmptyLog)
    else Ok(Anchor(caseId, log[|log| - 1].payload.seqNo, log[|log| - 1].entryHash, timestampUtc, operatorId))
  }

  lemma TextIs(a: Anchor)
    ensures a.SigningText() ==
      "VAJRA_ANCHOR_V1:" + a.caseId + ":" + Decimal(a.sequence) + ":" + a.chainHeadHash + ":" + a.timestampUtc + ":"
      + a.operatorId
  {
    hide Decimal;
    var number, tail := Decimal(a.sequence), a.timestampUtc + ":" + a.operatorId;
    assert Joined(a.timestampUtc, a.operatorId) == tail;
    assert Joined(a.chainHeadHash, tail) == a.chainHeadHash + ":" + tail;
    assert Joined(number, a.chainHeadHash + ":" + tail) == number + ":" + (a.chainHeadHash + ":" + tail);
  }

  /** The number that a text of digits writes. */
  function NumberIn(s: string): int {
    if |s| == 0 then 0 else 10 * NumberIn(s[..|s| - 1]) + (s[|s| - 1] as int - '0' as int)
  }

  /** Numbers are written in decimal digits, without zeros in front. */
  lemma {:induction false} DecimalIs(n: nat)
    ensures NumberIn(Decimal(n)) == n && forall i | 0 <= i < |Decimal(n)| :: '0' <= Decimal(n)[i] <= '9'
    ensures n != 0 ==> Decimal(n)[0] != '0'
    ensures n == 0 ==> Decimal(n) == "0"
  {
    var s := Decimal(n);
    if n < 10 {
      assert NumberIn(s[..0]) == 0;
    } else {
      DecimalIs(n / 10);
      assert s[..|s| - 1] == Decimal(n / 10);
    }
  }

  /** Checks the signature over the anchor's text, then compares the anchor with the first entry of its number. */
  method VerifyAnchor(log: seq<AuditEntry>, anchor: Anchor, isSigned: string -> bool)
    returns (r: Result<Anchor, AuditError>)
    ensures r.Ok? ==> r.value == anchor
    ensures r.Ok? <==> isSigned(anchor.SigningText()) && AnchorHolds(log, anchor)
    ensures anchor.SigningText() ==
      "VAJRA_ANCHOR_V1:" + anchor.caseId + ":" + Decimal(anchor.sequence) + ":" + anchor.chainHeadHash + ":"
      + anchor.timestampUtc + ":" + anchor.operatorId
    ensures r.Err? ==>
      r.error == if isSigned(anchor.SigningText()) then AnchorMismatch(anchor.sequence) else InvalidSignature
  {
    TextIs(anchor);
    if !isSigned(anchor.SigningText()) {
      return Err(InvalidSignature);
    }
    var k := 0;
    while k < |log| && log[k].payload.seqNo != anchor.sequence
      invariant k <= |log| && forall j | 0 <= j < k :: log[j].payload.seqNo != anchor.sequence
    {
      k := k + 1;
    }
    if k == |log| || log[k].entryHash != anchor.chainHeadHash {
      return Err(AnchorMismatch(anchor.sequence));
    }
    r := Ok(anchor);
  }

  ghost predicate AnchorHolds(log: seq<AuditEntry>, anchor: Anchor) {
    exists k | 0 <= k < |log| ::
      && log[k].payload.seqNo == anchor.sequence && log[k].entryHash == anchor.chainHeadHash
      && forall j | 0 <= j < k :: log[j].payload.seqNo != anchor.sequence
  }

  /**
   * A live log that passes verification matches an anchor exported from an intact log if and only if it begins
   * with that log, unless two hashed messages collide.
   */
  lemma AnchorPinsHistory(h: Hasher, anchored: seq<AuditEntry>, live: seq<AuditEntry>, anchor: Anchor)
    requires h.SelfDelimiting() && Intact(h, anchored) && Intact(h, live) && anchored != []
    requires !LogsCollide(h, live[..if |anchored| <= |live| then |anchored| else 0], anchored)
    requires ExportAnchor(anchored, anchor.caseId, anchor.timestampUtc, anchor.operatorId) == Ok(anchor)
    ensures AnchorHolds(live, anchor) <==> anchored <= live
  {
    var n := |anchored|;
    IntactIsLinked(h, anchored, 0, n);
    IntactIsLinked(h, live, 0, |live|);
    assert anchored[0..n] == anchored;
    hide LogsCollide, Hasher.CalculateHash, Intact, Linked;
    if AnchorHolds(live, anchor) {
      assert n <= |live| && live[n - 1].entryHash == anchored[n - 1].entryHash;
      IntactIsLinked(h, live, 0, n);
      assert live[0..n] == live[..n];
      SameHeadSamePast(h, live[..n], anchored, n);
      assert live[..n][0..] == live[..n] && anchored[0..] == anchored;
    }
    if anchored <= live {
      assert live[n - 1] == anchored[n - 1];
    }
  }

  /** Later appends never disturb an anchor. */
  lemma AppendKeepsAnchor(h: Hasher, log: seq<AuditEntry>, details: Payload, anchor: Anchor)
    requires AnchorHolds(log, anchor)
    ensures AnchorHolds(log + [NextEntry(h, log, details)], anchor)
  {
    var k :| 0 <= k < |log| && log[k].payload.seqNo == anchor.sequence && log[k].entryHash == anchor.chainHeadHash
      && forall j | 0 <= j < k :: log[j].payload.seqNo != anchor.sequence;
    assert (log + [NextEntry(h, log, details)])[k] == log[k];
  }

  // ----- what a signature over the text pins down

  /** The second text is the first, a colon and more. */
  ghost predicate Follows(a: string, b: string) {
    exists rest :: b == Joined(a, rest)
  }

  /** Two ways to cut one text at a colon: in the same place, or one within the rest of the other. */
  lemma CutsCompare(a: string, x: string, b: string, y: string) returns (mid: string)
    requires Joined(a, x) == Joined(b, y) && |a| <= |b|
    ensures if a == b then x == y else b == Joined(a, mid) && x == Joined(mid, y)
  {
    var s := Joined(a, x);
    assert s[..|a|] == a && s[..|b|] == b && s[|a|] == ':' && s[|b|] == ':';
    assert s[|a| + 1..] == x && s[|b| + 1..] == y;
    mid := "";
    if |a| < |b| {
      mid := s[|a| + 1..|b|];
      assert b == Joined(a, mid);
      assert x == Joined(mid, y);
    }
  }

  /** The first fields agree unless one follows the other. */
  lemma FirstField(a: string, x: string, b: string, y: string)
    requires Joined(a, x) == Joined(b, y) && !Follows(a, b) && !Follows(b, a)
    ensures a == b && x == y
  {
    hide Joined;
    if |a| <= |b| {
      var mid := CutsCompare(a, x, b, y);
    } else {
      var mid := CutsCompare(b, y, a, x);
    }
  }

  lemma FollowerHasColon(a: string, b: string)
    ensures Follows(a, b) ==> ':' in b
  {
    if rest :| b == Joined(a, rest) {
      assert b[|a|] == ':';
    }
  }

  lemma {:induction false} DecimalHasNoColon(n: nat)
    ensures ':' !in Decimal(n)
  {
    if n >= 10 {
      DecimalHasNoColon(n / 10);
    }
  }

  lemma {:induction false} DecimalIsInjective(m: nat, n: nat)
    requires Decimal(m) == Decimal(n)
    ensures m == n
  {
    var s, t := Decimal(m), Decimal(n);
    assert s[|s| - 1] == ('0' as int + m % 10) as char && t[|t| - 1] == ('0' as int + n % 10) as char;
    assert s[..|s| - 1] == t[..|t| - 1];
    if m >= 10 && n >= 10 {
      assert s[..|s| - 1] == Decimal(m / 10) && t[..|t| - 1] == Decimal(n / 10);
      DecimalIsInjective(m / 10, n / 10);
    }
  }

  /** The second case is the first one, a colon and a number, or goes on behind the number with a colon. */
  ghost predicate Confusable(c: string, d: string) {
    exists n: nat :: d == Joined(c, Decimal(n)) || FollowsIn(c, n, d)
  }

  ghost predicate FollowsIn(c: string, n: nat, d: string) {
    exists rest :: d == Joined(c, Joined(Decimal(n), rest))
  }

  /** A number in front of a text is read off it. */
  lemma NumberInFront(m: nat, x: string, mid: string, y: string)
    requires Joined(Decimal(m), x) == Joined(mid, y)
    ensures mid == Decimal(m) || exists rest :: mid == Joined(Decimal(m), rest)
  {
    hide Decimal, Joined;
    if |mid| <= |Decimal(m)| {
      var rest := CutsCompare(mid, y, Decimal(m), x);
      FollowerHasColon(mid, Decimal(m));
      DecimalHasNoColon(m);
    } else {
      var rest := CutsCompare(Decimal(m), x, mid, y);
    }
  }

  /** Different cases in front of numbers give one text only if one is confusable with the other. */
  lemma SharingCasesAreConfusable(c: string, m: nat, x: string, d: string, y: string)
    requires Joined(c, Joined(Decimal(m), x)) == Joined(d, y) && |c| <= |d| && c != d
    ensures Confusable(c, d)
  {
    hide Decimal, Joined;
    var mid := CutsCompare(c, Joined(Decimal(m), x), d, y);
    NumberInFront(m, x, mid, y);
    if mid != Decimal(m) {
      var rest :| mid == Joined(Decimal(m), rest);
      assert FollowsIn(c, m, d);
    }
  }

  /** Numbers in front of texts agree, as do the texts. */
  lemma NumbersCompare(m: nat, x: string, n: nat, y: string)
    requires Joined(Decimal(m), x) == Joined(Decimal(n), y)
    ensures m == n && x == y
  {
    hide Decimal, Joined, Follows;
    DecimalHasNoColon(m);
    DecimalHasNoColon(n);
    FollowerHasColon(Decimal(m), Decimal(n));
    FollowerHasColon(Decimal(n), Decimal(m));
    FirstField(Decimal(m), x, Decimal(n), y);
    DecimalIsInjective(m, n);
  }

  lemma CaseAndNumber(c: string, m: nat, x: string, d: string, n: nat, y: string)
    requires Joined(c, Joined(Decimal(m), x)) == Joined(d, Joined(Decimal(n), y))
    requires !Confusable(c, d) && |c| <= |d|
    ensures c == d && m == n && x == y
  {
    hide Decimal, Joined, Confusable;
    if c != d {
      SharingCasesAreConfusable(c, m, x, d, Joined(Decimal(n), y));
    } else {
      var mid := CutsCompare(c, Joined(Decimal(m), x), d, Joined(Decimal(n), y));
      NumbersCompare(m, x, n, y);
    }
  }

  /** What follows the number in the signed text. */
  function HashOnward(a: Anchor): string {
    Joined(a.chainHeadHash, Joined(a.timestampUtc, a.operatorId))
  }

  lemma TextParts(a: Anchor, b: Anchor)
    ensures a.SigningText() == b.SigningText() <==>
      Joined(a.caseId, Joined(Decimal(a.sequence), HashOnward(a)))
      == Joined(b.caseId, Joined(Decimal(b.sequence), HashOnward(b)))
  {
    hide Joined, Decimal;
    if a.SigningText() == b.SigningText() {
      SamePrefix("VAJRA_ANCHOR_V1:", Joined(a.caseId, Joined(Decimal(a.sequence), HashOnward(a))),
                 Joined(b.caseId, Joined(Decimal(b.sequence), HashOnward(b))));
    }
  }

  /** The signed text fixes case and number between cases that are not confusable, and then the hash likewise. */
  lemma SigningTextFixes(a: Anchor, b: Anchor)
    requires a.SigningText() == b.SigningText()
    requires !Confusable(a.caseId, b.caseId) && !Confusable(b.caseId, a.caseId)
    ensures a.caseId == b.caseId && a.sequence == b.sequence
    ensures !Follows(a.chainHeadHash, b.chainHeadHash) && !Follows(b.chainHeadHash, a.chainHeadHash) ==>
      a.chainHeadHash == b.chainHeadHash
  {
    hide Joined, Decimal, Confusable, Follows, Anchor.SigningText;
    TextParts(a, b);
    if |a.caseId| <= |b.caseId| {
      CaseAndNumber(a.caseId, a.sequence, HashOnward(a), b.caseId, b.sequence, HashOnward(b));
    } else {
      CaseAndNumber(b.caseId, b.sequence, HashOnward(b), a.caseId, a.sequence, HashOnward(a));
    }
    if !Follows(a.chainHeadHash, b.chainHeadHash) && !Follows(b.chainHeadHash, a.chainHeadHash) {
      FirstField(a.chainHeadHash, Joined(a.timestampUtc, a.operatorId),
                 b.chainHeadHash, Joined(b.timestampUtc, b.operatorId));
    }
  }

  /** Anchors of these cases with one text agree in case and number, whatever their other fields. */
  ghost predicate TextFixesCase(c: string, d: string) {
    forall a: Anchor, b: Anchor | a.caseId == c && b.caseId == d && a.SigningText() == b.SigningText() ::
      c == d && a.sequence == b.sequence
  }

  /** Two anchors of confusable cases with one text. */
  lemma ConfusableCasesShareText(c: string, d: string) returns (a: Anchor, b: Anchor)
    requires Confusable(c, d)
    ensures c != d && a.caseId == c && b.caseId == d && a.SigningText() == b.SigningText()
  {
    var n: nat :| d == Joined(c, Decimal(n)) || FollowsIn(c, n, d);
    b := Anchor(d, 0, "", "", "");
    assert |d| > |c|;
    if d == Joined(c, Decimal(n)) {
      a := Anchor(c, n, Decimal(0), "", ":");
      Regroup(c, Decimal(n), Decimal(0), HashOnward(b));
    } else {
      var rest :| d == Joined(c, Joined(Decimal(n), rest));
      a := Anchor(c, n, rest, Decimal(0), "::");
      Regroup(c, Joined(Decimal(n), rest), Decimal(0), HashOnward(b));
      Regroup(Decimal(n), rest, Decimal(0), HashOnward(b));
    }
    EmptyFields();
    hide Joined, Decimal, Anchor.SigningText;
    TextParts(a, b);
  }

  lemma Regroup(a: string, b: string, c: string, rest: string)
    ensures Joined(Joined(a, b), Joined(c, rest)) == Joined(a, Joined(b, Joined(c, rest)))
  {
    assert (a + ":" + b) + ":" + Joined(c, rest) == a + ":" + (b + ":" + Joined(c, rest));
  }

  lemma EmptyFields()
    ensures Joined("", Joined("", "")) == "::" == Joined("", ":")
  {}

  /** The exact condition on two case names, which can be checked before anything is signed. */
  lemma SigningTextFixesCaseIff(c: string, d: string)
    ensures TextFixesCase(c, d) <==> !Confusable(c, d) && !Confusable(d, c)
  {
    hide Confusable, Anchor.SigningText;
    if !Confusable(c, d) && !Confusable(d, c) {
      forall a: Anchor, b: Anchor | a.caseId == c && b.caseId == d && a.SigningText() == b.SigningText()
        ensures c == d && a.sequence == b.sequence
      {
        SigningTextFixes(a, b);
      }
    } else if Confusable(c, d) {
      var a, b := ConfusableCasesShareText(c, d);
    } else {
      var b, a := ConfusableCasesShareText(d, c);
    }
  }

  /** Anchors of one case and number with these hashes and one text have one hash. */
  ghost predicate TextFixesHash(g: string, h: string) {
    forall a: Anchor, b: Anchor | a.chainHeadHash == g && b.chainHeadHash == h && a.caseId == b.caseId
      && a.sequence == b.sequence && a.SigningText() == b.SigningText() ::
      g == h
  }

  lemma FollowingHashesShareText(g: string, h: string) returns (a: Anchor, b: Anchor)
    requires Follows(g, h)
    ensures g != h && a.chainHeadHash == g && b.chainHeadHash == h && a.caseId == b.caseId && a.sequence == b.sequence
    ensures a.SigningText() == b.SigningText()
  {
    var rest :| h == Joined(g, rest);
    a, b := Anchor("", 0, g, rest, ":"), Anchor("", 0, h, "", "");
    assert HashOnward(a) == HashOnward(b);
    hide Decimal, Joined;
    TextParts(a, b);
  }

  /** The exact condition on two hashes, once case and number are known. */
  lemma SigningTextFixesHashIff(g: string, h: string)
    ensures TextFixesHash(g, h) <==> !Follows(g, h) && !Follows(h, g)
  {
    hide Follows, Anchor.SigningText, Confusable;
    if !Follows(g, h) && !Follows(h, g) {
      forall a: Anchor, b: Anchor | a.chainHeadHash == g && b.chainHeadHash == h && a.caseId == b.caseId
        && a.sequence == b.sequence && a.SigningText() == b.SigningText()
        ensures g == h
      {
        NotConfusableWithItself(a.caseId);
        SigningTextFixes(a, b);
      }
    } else if Follows(g, h) {
      var a, b := FollowingHashesShareText(g, h);
    } else {
      var b, a := FollowingHashesShareText(h, g);
    }
  }

  lemma NotConfusableWithItself(c: string)
    ensures !Confusable(c, c)
  {
    hide Decimal;
  }

  /** Only a name with a colon can be confusable with another. */
  lemma ConfusableHasColon(c: string, d: string)
    ensures Confusable(c, d) ==> ':' in d
  {
    hide Joined, Decimal;
    FollowerHasColon(c, d);
    if n: nat :| d == Joined(c, Decimal(n)) || FollowsIn(c, n, d) {
      assert Follows(c, d);
    }
  }

  lemma SamePrefix(p: string, x: string, y: string)
    requires p + x == p + y
    ensures x == y
  {
    assert (p + x)[|p|..] == x && (p + y)[|p|..] == y;
  }

  /** With a colon in the case, two anchors of different cases and numbers share their text. */
  lemma ColonsShareTexts(head: string, time: string, operator: string)
    ensures var a, b := Anchor("A:1", 2, head, time, operator), Anchor("A", 1, "2", head, time + ":" + operator);
      a.caseId != b.caseId && a.sequence != b.sequence && a.SigningText() == b.SigningText()
  {
    var a, b := Anchor("A:1", 2, head, time, operator), Anchor("A", 1, "2", head, time + ":" + operator);
    assert Decimal(1) == "1" && Decimal(2) == "2";
    assert Joined("A:1", Joined("2", Joined(head, Joined(time, operator))))
        == Joined("A", Joined("1", Joined("2", Joined(head, time + ":" + operator))));
  }
}
