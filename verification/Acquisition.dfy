/** The acquisition engine: resilient chunk reads, and the copy loop with checkpoints. */
module Acquisition {
  import opened Arithmetic
  import opened BadSectors
  import opened Bits
  import opened RawImages
  import opened Wrappers

  datatype Strategy = Strategy(maxRetries: nat, initialChunk: nat, minChunk: nat, pattern: seq<byte>)

  /** The marker "VAJRA_BAD_SECTOR". */
  const MARKER: seq<byte> := [0x56, 0x41, 0x4a, 0x52, 0x41, 0x5f, 0x42, 0x41, 0x44, 0x5f, 0x53, 0x45, 0x43, 0x54,
                              0x4f, 0x52]

  const DEFAULT_STRATEGY := Strategy(3, 128, 1, MARKER)

  // ----- a source that may fail any attempt

  /** The answer to attempt `k` at reading `count` sectors from `lba`. */
  type Responses = (nat, nat, nat) -> Option<seq<Sector>>

  /** A successful read returns as many sectors as were asked for. */
  ghost predicate WellSized(resp: Responses, blockSize: nat) {
    forall k: nat, lba: nat, count: nat :: resp(k, lba, count).Some? ==>
      |resp(k, lba, count).value| == count &&
      forall i | 0 <= i < count :: |resp(k, lba, count).value[i]| == blockSize
  }

  /** A read of `count` sectors from `lba`, whatever came of it. */
  datatype Read = Read(lba: nat, count: nat)

  /** A source and the reads made from it so far; read number `k` is answered by `responses(k, ...)`. */
  class BlockSource {
    const blockSize: nat
    const totalBlocks: nat
    const responses: Responses
    var log: seq<Read>

    ghost predicate Valid() {
      blockSize != 0 && WellSized(responses, blockSize)
    }

    constructor (blockSize: nat, totalBlocks: nat, responses: Responses)
      ensures this.blockSize == blockSize && this.totalBlocks == totalBlocks && this.responses == responses
      ensures log == []
    {
      this.blockSize, this.totalBlocks, this.responses, log := blockSize, totalBlocks, responses, [];
    }

    method ReadBlocks(lba: nat, count: nat) returns (r: Option<seq<Sector>>)
      modifies this
      ensures r == responses(|old(log)|, lba, count)
      ensures log == old(log) + [Read(lba, count)]
    {
      r := responses(|log|, lba, count);
      log := log + [Read(lba, count)];
    }
  }

  // ----- what may end up in the image for one sector

  /** The reads made from a source; those from number `since` on belong to the acquisition in question. */
  datatype History = History(responses: Responses, log: seq<Read>, since: nat)

  /** Read `k` was made, covered the sector and returned these bytes for it. */
  ghost predicate Gave(h: History, k: nat, lba: nat, bytes: Sector) {
    && h.since <= k < |h.log|
    && var start, count := h.log[k].lba, h.log[k].count;
       && start <= lba < start + count && h.responses(k, start, count).Some?
       && lba - start < |h.responses(k, start, count).value| && h.responses(k, start, count).value[lba - start] == bytes
  }

  /** A read that the acquisition made returned these bytes for the sector. */
  ghost predicate Returned(h: History, lba: nat, bytes: Sector) {
    exists k: nat :: Gave(h, k, lba, bytes)
  }

  /** From read `k` on, `tries` reads in a row asked for the same range, and all failed. */
  ghost predicate AllFailed(h: History, k: nat, tries: nat, start: nat, count: nat) {
    && h.since <= k && k + tries <= |h.log|
    && forall j: nat | k <= j < k + tries :: h.log[j] == Read(start, count) && h.responses(j, start, count).None?
  }

  /**
   * Reads `k` to `k + maxRetries` failed on a sector alone, or on a chunk too small to split, and the bytes are its
   * marker.
   */
  ghost predicate GaveUp(h: History, st: Strategy, blockSize: nat, k: nat, start: nat, count: nat, lba: nat,
                         bytes: Sector) {
    && AllFailed(h, k, st.maxRetries + 1, start, count)
    && start <= lba < start + count && (count == 1 || count <= st.minChunk)
    && bytes == Markers(st.pattern, count, blockSize)[lba - start]
  }

  /** The bytes are the marker, and the acquisition made a read of the sector that failed, as did all its retries. */
  ghost predicate Marked(h: History, st: Strategy, blockSize: nat, lba: nat, bytes: Sector) {
    exists k: nat, start: nat, count: nat :: GaveUp(h, st, blockSize, k, start, count, lba, bytes)
  }

  ghost predicate Outcome(h: History, st: Strategy, blockSize: nat, lba: nat, bytes: Sector, bad: bool) {
    if bad then Marked(h, st, blockSize, lba, bytes) else Returned(h, lba, bytes)
  }

  /** More reads, or an earlier beginning, take no outcome away. */
  lemma OutcomeGrows(h: History, h': History, st: Strategy, blockSize: nat, lba: nat, bytes: Sector, bad: bool)
    requires h.responses == h'.responses && h.log <= h'.log && h'.since <= h.since
    requires Outcome(h, st, blockSize, lba, bytes, bad)
    ensures Outcome(h', st, blockSize, lba, bytes, bad)
  {
    hide Markers;
    if bad {
      var k: nat, start: nat, count: nat :| GaveUp(h, st, blockSize, k, start, count, lba, bytes);
      assert GaveUp(h', st, blockSize, k, start, count, lba, bytes);
    } else {
      var k: nat :| Gave(h, k, lba, bytes);
      assert Gave(h', k, lba, bytes);
    }
  }

  function Split(bytes: seq<byte>, count: nat, blockSize: nat): (sectors: seq<Sector>)
    requires |bytes| == count * blockSize
    ensures |sectors| == count
  {
    seq(count, i requires 0 <= i < count =>
      SplitBounds(i, count, blockSize); bytes[i * blockSize..(i + 1) * blockSize])
  }

  lemma SplitBounds(i: nat, count: nat, blockSize: nat)
    requires i < count
    ensures i * blockSize <= (i + 1) * blockSize <= count * blockSize
  {
    MulMono(i + 1, count, blockSize);
  }

  /** The marker sectors of a chunk: one run of the pattern over all its bytes. */
  function Markers(pattern: seq<byte>, count: nat, blockSize: nat): (sectors: seq<Sector>)
    ensures |sectors| == count
  {
    Split(Placeholder(pattern, count * blockSize), count, blockSize)
  }

  /** Byte `b` of marker sector `i`: the pattern runs on from sector to sector; an empty one gives zeros. */
  lemma MarkerByte(pattern: seq<byte>, count: nat, blockSize: nat, i: nat, b: nat)
    requires i < count && b < blockSize
    ensures var sector := Markers(pattern, count, blockSize)[i];
      |sector| == blockSize && sector[b] == if pattern == [] then 0 else pattern[(i * blockSize + b) % |pattern|]
  {
    SplitBounds(i, count, blockSize);
    assert (i + 1) * blockSize == i * blockSize + blockSize;
  }

  // ----- reading with retries, splitting and placeholders

  /** Reads until one succeeds, at most `tries` times: its answer, and the reads made from the source by then. */
  function TryReads(resp: Responses, log: seq<Read>, lba: nat, count: nat, tries: nat): (Option<seq<Sector>>, seq<Read>)
    decreases tries
  {
    if tries == 0 then (None, log)
    else
      var r, log' := resp(|log|, lba, count), log + [Read(lba, count)];
      if r.Some? then (r, log') else TryReads(resp, log', lba, count, tries - 1)
  }

  /** Data for the image, and the map and the reads afterwards. */
  datatype Chunk = Chunk(data: seq<Sector>, badMap: BadMap, log: seq<Read>)

  function MarkedChunk(st: Strategy, blockSize: nat, start: nat, count: nat, m: BadMap, log: seq<Read>): Chunk {
    Chunk(Markers(st.pattern, count, blockSize), m.Record(start, count, blockSize), log)
  }

  function ReadSector(resp: Responses, st: Strategy, blockSize: nat, lba: nat, m: BadMap, log: seq<Read>): Chunk {
    var (r, log') := TryReads(resp, log, lba, 1, st.maxRetries + 1);
    if r.Some? then Chunk(r.value, m, log') else MarkedChunk(st, blockSize, lba, 1, m, log')
  }

  /** The first `count` sectors from `start`, one by one. */
  function ReadSectors(resp: Responses, st: Strategy, blockSize: nat, start: nat, count: nat, m: BadMap,
                       log: seq<Read>): Chunk
    decreases count
  {
    if count == 0 then Chunk([], m, log)
    else
      var front := ReadSectors(resp, st, blockSize, start, count - 1, m, log);
      var last := ReadSector(resp, st, blockSize, start + count - 1, front.badMap, front.log);
      Chunk(front.data + last.data, last.badMap, last.log)
  }

  /** Chunk first; if that keeps failing, sector by sector; a chunk too small to split is marked as a whole. */
  function ReadChunk(resp: Responses, st: Strategy, blockSize: nat, start: nat, count: nat, m: BadMap,
                     log: seq<Read>): Chunk {
    var (r, log') := TryReads(resp, log, start, count, st.maxRetries + 1);
    if r.Some? then Chunk(r.value, m, log')
    else if count > st.minChunk then ReadSectors(resp, st, blockSize, start, count, m, log')
    else MarkedChunk(st, blockSize, start, count, m, log')
  }

  // ----- the loops

  /** One try and `maxRetries` more, up to the first that succeeds. */
  method TryRead(source: BlockSource, lba: nat, count: nat, maxRetries: nat) returns (r: Option<seq<Sector>>)
    modifies source
    ensures (r, source.log) == TryReads(source.responses, old(source.log), lba, count, maxRetries + 1)
  {
    var retry := 0;
    while retry <= maxRetries
      invariant retry <= maxRetries + 1
      invariant TryReads(source.responses, source.log, lba, count, maxRetries + 1 - retry)
             == TryReads(source.responses, old(source.log), lba, count, maxRetries + 1)
    {
      r := source.ReadBlocks(lba, count);
      if r.Some? {
        return;
      }
      retry := retry + 1;
    }
    r := None;
  }

  method MarkUnreadable(lba: nat, count: nat, st: Strategy, blockSize: nat, badMap: BadSectorMap)
    returns (data: seq<Sector>)
    modifies badMap
    ensures badMap.View() == old(badMap.View()).Record(lba, count, blockSize)
    ensures data == Markers(st.pattern, count, blockSize)
  {
    badMap.RecordUnreadable(lba, count, blockSize);
    var buffer := new byte[count * blockSize](_ => 0);
    BadSectorMap.FillPlaceholder(buffer, st.pattern);
    data := Split(buffer[..], count, blockSize);
  }

  method ReadSingleSectorWithFallback(source: BlockSource, lba: nat, st: Strategy, badMap: BadSectorMap)
    returns (data: seq<Sector>)
    modifies source, badMap
    ensures Chunk(data, badMap.View(), source.log)
         == ReadSector(source.responses, st, source.blockSize, lba, old(badMap.View()), old(source.log))
  {
    hide TryReads, Markers, BadMap.Record;
    var r := TryRead(source, lba, 1, st.maxRetries);
    if r.Some? {
      return r.value;
    }
    data := MarkUnreadable(lba, 1, st, source.blockSize, badMap);
  }

  method ReadChunkWithFallback(source: BlockSource, start: nat, count: nat, st: Strategy, badMap: BadSectorMap)
    returns (data: seq<Sector>)
    modifies source, badMap
    ensures Chunk(data, badMap.View(), source.log)
         == ReadChunk(source.responses, st, source.blockSize, start, count, old(badMap.View()), old(source.log))
  {
    hide TryReads, ReadSector, Markers, BadMap.Record;
    var r := TryRead(source, start, count, st.maxRetries);
    if r.Some? {
      return r.value;
    }

    if count > st.minChunk {
      data := [];
      ghost var tried := source.log;
      for offset := 0 to count
        invariant Chunk(data, badMap.View(), source.log)
               == ReadSectors(source.responses, st, source.blockSize, start, offset, old(badMap.View()), tried)
      {
        var sector := ReadSingleSectorWithFallback(source, start + offset, st, badMap);
        data := data + sector;
      }
      return;
    }

    data := MarkUnreadable(start, count, st, source.blockSize, badMap);
  }

  // ----- where the data comes from

  /** What reading `count` sectors from `start` makes of the map `before`, by reads made after `reads`. */
  ghost predicate ChunkOutcome(resp: Responses, st: Strategy, blockSize: nat, start: nat, count: nat,
                               before: BadMap, log: seq<Read>, c: Chunk)
  {
    && |c.data| == count && log <= c.log
    && c.badMap.WellFormed(blockSize) && c.badMap.End() <= start + count
    && (forall l: nat | !(start <= l < start + count) :: c.badMap.IsLbaBad(l) <==> before.IsLbaBad(l))
    && (forall l: nat | start <= l < start + count ::
          Outcome(History(resp, c.log, |log|), st, blockSize, l, c.data[l - start], c.badMap.IsLbaBad(l)))
  }

  /** The last read gave the answer, or all of them failed. */
  lemma {:induction false} TryReadsOutcome(resp: Responses, log: seq<Read>, lba: nat, count: nat, tries: nat)
    ensures var (r, log') := TryReads(resp, log, lba, count, tries);
      && log <= log'
      && (r.Some? ==> |log| < |log'| && log'[|log'| - 1] == Read(lba, count) && r == resp(|log'| - 1, lba, count))
      && (r.None? ==> |log'| == |log| + tries && AllFailed(History(resp, log', |log|), |log|, tries, lba, count))
    decreases tries
  {
    if tries != 0 && resp(|log|, lba, count).None? {
      var next := log + [Read(lba, count)];
      TryReadsOutcome(resp, next, lba, count, tries - 1);
      var (r, log') := TryReads(resp, next, lba, count, tries - 1);
      if r.None? {
        var h := History(resp, log', |log|);
        assert AllFailed(History(resp, log', |next|), |next|, tries - 1, lba, count);
        assert log'[|log|] == next[|log|];
        assert AllFailed(h, |log|, tries, lba, count);
      }
    }
  }

  lemma NothingBadFrom(m: BadMap, blockSize: nat, lba: nat)
    requires m.WellFormed(blockSize) && m.End() <= lba
    ensures forall l: nat | lba <= l :: !m.IsLbaBad(l)
  {
    var n := |m.ranges|;
    forall i | 0 <= i < n
      ensures m.ranges[i].End() <= lba
    {
      assert i < n - 1 ==> m.ranges[i].End() < m.ranges[n - 1].startLba;
    }
  }

  /** Data that one read returned. */
  lemma ReadGivesOutcome(resp: Responses, st: Strategy, blockSize: nat, start: nat, count: nat, m: BadMap,
                         log: seq<Read>, c: Chunk)
    requires m.WellFormed(blockSize) && m.End() <= start && c.badMap == m
    requires log <= c.log && |log| < |c.log| && c.log[|c.log| - 1] == Read(start, count)
    requires resp(|c.log| - 1, start, count) == Some(c.data) && |c.data| == count
    ensures ChunkOutcome(resp, st, blockSize, start, count, m, log, c)
  {
    NothingBadFrom(m, blockSize, start);
    hide BadMap.WellFormed, BadMap.IsLbaBad, Marked;
    forall l: nat | start <= l < start + count
      ensures Outcome(History(resp, c.log, |log|), st, blockSize, l, c.data[l - start], m.IsLbaBad(l))
    {
      assert Gave(History(resp, c.log, |log|), |c.log| - 1, l, c.data[l - start]);
    }
  }

  lemma MarkGivesSector(h: History, st: Strategy, blockSize: nat, k: nat, start: nat, count: nat, l: nat)
    requires AllFailed(h, k, st.maxRetries + 1, start, count) && start <= l < start + count
    requires count == 1 || count <= st.minChunk
    ensures Marked(h, st, blockSize, l, Markers(st.pattern, count, blockSize)[l - start])
  {
    hide AllFailed, Markers;
    assert GaveUp(h, st, blockSize, k, start, count, l, Markers(st.pattern, count, blockSize)[l - start]);
  }

  /** Markers, after a read and all its retries failed. */
  lemma MarkGivesOutcome(resp: Responses, st: Strategy, blockSize: nat, start: nat, count: nat, m: BadMap,
                         log: seq<Read>, log': seq<Read>)
    requires m.WellFormed(blockSize) && m.End() <= start && (count == 1 || count <= st.minChunk) && log <= log'
    requires AllFailed(History(resp, log', |log|), |log|, st.maxRetries + 1, start, count)
    ensures ChunkOutcome(resp, st, blockSize, start, count, m, log, MarkedChunk(st, blockSize, start, count, m, log'))
  {
    hide BadMap.Record, BadMap.WellFormed, BadMap.IsLbaBad, BadMap.End, Markers, AllFailed, Marked, Returned;
    RecordKeepsOrder(m, start, count, blockSize);
    var h, c := History(resp, log', |log|), MarkedChunk(st, blockSize, start, count, m, log');
    forall l: nat | start <= l < start + count
      ensures Outcome(h, st, blockSize, l, c.data[l - start], c.badMap.IsLbaBad(l))
    {
      MarkGivesSector(h, st, blockSize, |log|, start, count, l);
    }
  }

  lemma SectorGivesOutcome(resp: Responses, st: Strategy, blockSize: nat, lba: nat, m: BadMap, log: seq<Read>)
    requires WellSized(resp, blockSize) && m.WellFormed(blockSize) && m.End() <= lba
    ensures ChunkOutcome(resp, st, blockSize, lba, 1, m, log, ReadSector(resp, st, blockSize, lba, m, log))
  {
    hide ChunkOutcome, TryReads, BadMap.WellFormed, BadMap.End, MarkedChunk, AllFailed;
    TryReadsOutcome(resp, log, lba, 1, st.maxRetries + 1);
    var (r, log') := TryReads(resp, log, lba, 1, st.maxRetries + 1);
    if r.Some? {
      ReadGivesOutcome(resp, st, blockSize, lba, 1, m, log, Chunk(r.value, m, log'));
    } else {
      MarkGivesOutcome(resp, st, blockSize, lba, 1, m, log, log');
    }
  }

  /** Reads before the chunk's own only add to its history. */
  lemma OutcomeFromEarlier(resp: Responses, st: Strategy, blockSize: nat, start: nat, count: nat, m: BadMap,
                           earlier: seq<Read>, log: seq<Read>, c: Chunk)
    requires earlier <= log && ChunkOutcome(resp, st, blockSize, start, count, m, log, c)
    ensures ChunkOutcome(resp, st, blockSize, start, count, m, earlier, c)
  {
    hide BadMap.WellFormed, BadMap.IsLbaBad, Outcome;
    forall l: nat | start <= l < start + count
      ensures Outcome(History(resp, c.log, |earlier|), st, blockSize, l, c.data[l - start], c.badMap.IsLbaBad(l))
    {
      OutcomeGrows(History(resp, c.log, |log|), History(resp, c.log, |earlier|), st, blockSize, l,
                   c.data[l - start], c.badMap.IsLbaBad(l));
    }
  }

  lemma OutcomesJoin(resp: Responses, st: Strategy, blockSize: nat, start: nat, count: nat, m: BadMap,
                     log: seq<Read>, front: Chunk, last: Chunk)
    requires ChunkOutcome(resp, st, blockSize, start, count, m, log, front)
    requires ChunkOutcome(resp, st, blockSize, start + count, 1, front.badMap, front.log, last)
    ensures ChunkOutcome(resp, st, blockSize, start, count + 1, m, log,
                         Chunk(front.data + last.data, last.badMap, last.log))
  {
    hide BadMap.WellFormed, BadMap.IsLbaBad, Outcome;
    var h := History(resp, last.log, |log|);
    forall l: nat | start <= l < start + count + 1
      ensures Outcome(h, st, blockSize, l, (front.data + last.data)[l - start], last.badMap.IsLbaBad(l))
    {
      if l < start + count {
        OutcomeGrows(History(resp, front.log, |log|), h, st, blockSize, l,
                     front.data[l - start], front.badMap.IsLbaBad(l));
      } else {
        OutcomeGrows(History(resp, last.log, |front.log|), h, st, blockSize, l,
                     last.data[0], last.badMap.IsLbaBad(l));
      }
    }
  }

  lemma {:induction false} SectorsGiveOutcome(resp: Responses, st: Strategy, blockSize: nat, start: nat, count: nat,
                                              m: BadMap, log: seq<Read>)
    requires WellSized(resp, blockSize) && m.WellFormed(blockSize) && m.End() <= start
    ensures ChunkOutcome(resp, st, blockSize, start, count, m, log,
                         ReadSectors(resp, st, blockSize, start, count, m, log))
    decreases count
  {
    hide WellSized, BadMap.WellFormed, BadMap.End, BadMap.IsLbaBad, Outcome, ReadSector;
    if count == 0 {
      assert m.WellFormed(blockSize) && m.End() <= start + 0;
    } else {
      SectorsGiveOutcome(resp, st, blockSize, start, count - 1, m, log);
      var front := ReadSectors(resp, st, blockSize, start, count - 1, m, log);
      SectorGivesOutcome(resp, st, blockSize, start + count - 1, front.badMap, front.log);
      var last := ReadSector(resp, st, blockSize, start + count - 1, front.badMap, front.log);
      OutcomesJoin(resp, st, blockSize, start, count - 1, m, log, front, last);
      hide ChunkOutcome;
    }
  }

  /** Every sector of a chunk holds bytes that one of the chunk's reads returned, or is marked and recorded. */
  lemma ChunkGivesOutcome(resp: Responses, st: Strategy, blockSize: nat, start: nat, count: nat, m: BadMap,
                          log: seq<Read>)
    requires WellSized(resp, blockSize) && m.WellFormed(blockSize) && m.End() <= start
    ensures ChunkOutcome(resp, st, blockSize, start, count, m, log,
                         ReadChunk(resp, st, blockSize, start, count, m, log))
  {
    hide ChunkOutcome, TryReads, ReadSectors, BadMap.WellFormed, BadMap.End, MarkedChunk, AllFailed;
    TryReadsOutcome(resp, log, start, count, st.maxRetries + 1);
    var (r, log') := TryReads(resp, log, start, count, st.maxRetries + 1);
    if r.Some? {
      ReadGivesOutcome(resp, st, blockSize, start, count, m, log, Chunk(r.value, m, log'));
    } else if count > st.minChunk {
      SectorsGiveOutcome(resp, st, blockSize, start, count, m, log');
      OutcomeFromEarlier(resp, st, blockSize, start, count, m, log, log',
                         ReadSectors(resp, st, blockSize, start, count, m, log'));
    } else {
      MarkGivesOutcome(resp, st, blockSize, start, count, m, log, log');
    }
  }

  /** A chunk has as many sectors as were asked for. */
  lemma ChunkSize(resp: Responses, st: Strategy, blockSize: nat, start: nat, count: nat, m: BadMap, log: seq<Read>)
    requires WellSized(resp, blockSize)
    ensures |ReadChunk(resp, st, blockSize, start, count, m, log).data| == count
  {
    hide TryReads, ReadSectors, Markers;
    TryReadsOutcome(resp, log, start, count, st.maxRetries + 1);
    var (r, log') := TryReads(resp, log, start, count, st.maxRetries + 1);
    SectorsSize(resp, st, blockSize, start, count, m, log');
  }

  lemma {:induction false} SectorsSize(resp: Responses, st: Strategy, blockSize: nat, start: nat, count: nat, m: BadMap,
                                       log: seq<Read>)
    requires WellSized(resp, blockSize)
    ensures |ReadSectors(resp, st, blockSize, start, count, m, log).data| == count
    decreases count
  {
    hide TryReads, Markers;
    if count != 0 {
      SectorsSize(resp, st, blockSize, start, count - 1, m, log);
      var front := ReadSectors(resp, st, blockSize, start, count - 1, m, log);
      TryReadsOutcome(resp, front.log, start + count - 1, 1, st.maxRetries + 1);
    }
  }
}
