/** The copy loop as a step machine: chunks, checkpoints, crashes and resumption. */
module AcquisitionLoop {
  import opened Acquisition
  import opened BadSectors
  import opened RawImages

  const U32 := 0x1_0000_0000

  const RESUME_INTERVAL := 10000

  datatype Profile = Physical | Partial(startLba: nat, endLba: nat) | Logical(startLba: nat, endLba: nat)
  {
    /** The sectors that the profile names, whatever the size of the device. */
    predicate Names(l: nat) {
      match this
      case Physical => true
      case Partial(startLba, endLba) => startLba <= l <= endLba
      case Logical(startLba, endLba) => startLba <= l <= endLba
    }

    /** The sector with which the image begins. */
    function First(): nat {
      match this
      case Physical => 0
      case Partial(startLba, endLba) => startLba
      case Logical(startLba, endLba) => startLba
    }

    /** First and last sector to acquire. */
    function LbaBounds(totalBlocks: nat): (nat, nat) {
      var last := if totalBlocks == 0 then 0 else totalBlocks - 1;
      match this
      case Physical => (0, last)
      case Partial(startLba, endLba) => (startLba, if endLba < last then endLba else last)
      case Logical(startLba, endLba) => (startLba, if endLba < last then endLba else last)
    }
  }

  /** The sectors to acquire: those named that the device has, of which an empty device has the first. */
  predicate InScope(profile: Profile, totalBlocks: nat, l: nat) {
    profile.Names(l) && (l < totalBlocks || l == 0)
  }

  lemma BoundsAreScope(profile: Profile, totalBlocks: nat, l: nat)
    ensures var (first, last) := profile.LbaBounds(totalBlocks);
      first == profile.First() && (first <= l <= last <==> InScope(profile, totalBlocks, l))
  {}

  /** The scope is what the profile names of the device, unless the device is empty and sector 0 is named. */
  lemma ScopeIsDeviceIff(profile: Profile, totalBlocks: nat)
    ensures (forall l: nat :: InScope(profile, totalBlocks, l) <==> profile.Names(l) && l < totalBlocks)
      <==> totalBlocks != 0 || !profile.Names(0)
  {
    assert InScope(profile, totalBlocks, 0) <==> profile.Names(0);
  }

  /** What is to be acquired from which source, which has answered `since` reads before. */
  datatype Job = Job(startLba: nat, endLba: nat, blockSize: nat, responses: Responses, since: nat)
  {
    /** One past the last sector of the range. */
    function Limit(): nat {
      if endLba >= startLba then endLba + 1 else startLba
    }

    function Made(log: seq<Read>): History {
      History(responses, log, since)
    }
  }

  datatype Checkpoint = Checkpoint(currentLba: nat, badMap: BadMap)

  datatype Pc = Looping | Copied | Finished

  datatype State = State(
    pc: Pc, cur: nat, lastCheckpoint: nat, interval: nat, strategy: Strategy,
    badMap: BadMap, image: Image, stored: Checkpoint, log: seq<Read>)

  /** The remaining block count is cast to 32 bits before it caps the chunk. */
  function ChunkSectors(st: Strategy, cur: nat, endLba: nat): nat
    requires cur <= endLba
  {
    var remaining := (endLba - cur + 1) % U32;
    if st.initialChunk < remaining then st.initialChunk else remaining
  }

  // ----- the steps

  function Fresh(job: Job, st: Strategy, interval: nat, log: seq<Read>): State {
    State(Looping, job.startLba, job.startLba, interval, st, EMPTY, Image([], 0, []), Checkpoint(job.startLba, EMPTY),
          log)
  }

  /** What the next chunk's reads return and leave behind. */
  function NextChunk(job: Job, s: State): Chunk
    requires s.cur <= job.endLba
  {
    ReadChunk(job.responses, s.strategy, job.blockSize, s.cur, ChunkSectors(s.strategy, s.cur, job.endLba), s.badMap,
              s.log)
  }

  predicate CanCopy(job: Job, s: State) {
    s.pc.Looping? && job.startLba <= s.cur <= job.endLba
  }

  predicate CopyStep(job: Job, s: State, s': State) {
    && CanCopy(job, s)
    && var c := NextChunk(job, s);
       s' == s.(pc := Copied, cur := s.cur + ChunkSectors(s.strategy, s.cur, job.endLba), badMap := c.badMap,
                log := c.log,
                image := s.image.WriteBlocks(s.cur - job.startLba, c.data, job.blockSize))
  }

  /** A checkpoint is due every `interval` blocks; the database may silently fail to store it. */
  ghost predicate CheckpointStep(s: State, s': State) {
    && s.pc.Copied?
    && if s.cur - s.lastCheckpoint >= s.interval then
         || s' == s.(pc := Looping, lastCheckpoint := s.cur, stored := Checkpoint(s.cur, s.badMap))
         || s' == s.(pc := Looping, lastCheckpoint := s.cur)
       else s' == s.(pc := Looping)
  }

  ghost predicate FinishStep(job: Job, s: State, s': State) {
    && s.pc.Looping? && s.cur > job.endLba
    && s' == s.(pc := Finished, image := Image(s.image.Flushed(job.blockSize), 0, []))
  }

  /** Reads made by the time of a crash: those of the chunk in progress may have been made in part. */
  predicate MayHaveRead(job: Job, s: State, log: seq<Read>) {
    if CanCopy(job, s) then s.log <= log <= NextChunk(job, s).log else log == s.log
  }

  /** The image while the next chunk is written past the buffer: a crash leaves its range in any state. */
  function Writing(job: Job, s: State): Image
    requires CanCopy(job, s)
  {
    Image(s.image.Flushed(job.blockSize), s.cur - job.startLba, NextChunk(job, s).data)
  }

  /** The file that a crash may leave: at rest or while the buffer is written out, or inside the next write. */
  ghost predicate MayLeave(job: Job, s: State, file: seq<Sector>) {
    s.image.MayCrashTo(file) || (CanCopy(job, s) && Writing(job, s).MayCrashTo(file))
  }

  /** The file when the process is killed while the system goes on: writes are done in order, the buffer is gone. */
  ghost predicate MayKill(job: Job, s: State, file: seq<Sector>) {
    || s.image.KilledTo(file, job.blockSize)
    || (CanCopy(job, s) && Writing(job, s).KilledTo(file, job.blockSize))
  }

  /** The process dies leaving `file`, and a later run resumes from the stored checkpoint. */
  ghost predicate CrashTo(job: Job, s: State, file: seq<Sector>, s': State) {
    && MayLeave(job, s, file) && MayHaveRead(job, s, s'.log)
    && s' == State(Looping, s.stored.currentLba, s.stored.currentLba, RESUME_INTERVAL, DEFAULT_STRATEGY,
                   s.stored.badMap, Image(file, 0, []), s.stored, s'.log)
  }

  /** Buffered sector `i` is in the file. */
  ghost predicate Reached(image: Image, file: seq<Sector>, i: nat)
    requires image.pendingAt <= i < image.pendingAt + |image.pending|
  {
    i < |file| && file[i] == image.pending[i - image.pendingAt]
  }

  /** Every buffered sector below the stored checkpoint has reached the file. */
  ghost predicate NothingLost(job: Job, s: State, file: seq<Sector>) {
    forall i | s.image.pendingAt <= i < s.image.pendingAt + |s.image.pending|
      && job.startLba + i < s.stored.currentLba ::
      Reached(s.image, file, i)
  }

  ghost predicate RunStep(job: Job, s: State, s': State) {
    CopyStep(job, s, s') || CheckpointStep(s, s') || FinishStep(job, s, s')
  }

  ghost predicate SafeCrash(job: Job, s: State, s': State) {
    CrashTo(job, s, s'.image.file, s') && NothingLost(job, s, s'.image.file)
  }

  /** A run with any number of crashes, none of which loses a sector below the checkpoint. */
  ghost predicate SafeTrace(job: Job, trace: seq<State>) {
    && |trace| != 0
    && forall i | 0 <= i < |trace| - 1 :: RunStep(job, trace[i], trace[i + 1]) || SafeCrash(job, trace[i], trace[i + 1])
  }

  ghost predicate SafeKill(job: Job, s: State, s': State) {
    SafeCrash(job, s, s') && MayKill(job, s, s'.image.file)
  }

  /** A run that was killed and resumed any number of times, without loss of a sector below the checkpoint. */
  ghost predicate KillTrace(job: Job, trace: seq<State>) {
    && |trace| != 0
    && forall i | 0 <= i < |trace| - 1 :: RunStep(job, trace[i], trace[i + 1]) || SafeKill(job, trace[i], trace[i + 1])
  }

  /** A run without crashes. */
  ghost predicate PlainTrace(job: Job, trace: seq<State>) {
    |trace| != 0 && forall i | 0 <= i < |trace| - 1 :: RunStep(job, trace[i], trace[i + 1])
  }

  // ----- the loop as the source writes it

  /** The case database's operation record; an update may fail without notice. */
  class CaseVault {
    const accepts: nat -> bool
    var updates: nat
    var stored: Checkpoint

    constructor (accepts: nat -> bool, initial: Checkpoint)
      ensures this.accepts == accepts && stored == initial
    {
      this.accepts, updates, stored := accepts, 0, initial;
    }

    /** Starting an operation stores its first checkpoint; unlike an update this is never skipped. */
    method RecordOperation(cp: Checkpoint)
      modifies this
      ensures stored == cp
    {
      stored := cp;
    }

    method UpdateCheckpoint(cp: Checkpoint)
      modifies this
      ensures stored == cp || stored == old(stored)
    {
      if accepts(updates) {
        stored := cp;
      }
      updates := updates + 1;
    }
  }

  lemma TraceExtends(job: Job, trace: seq<State>, s': State)
    requires PlainTrace(job, trace) && RunStep(job, trace[|trace| - 1], s')
    ensures PlainTrace(job, trace + [s'])
  {
    hide RunStep;
  }

  /** A chunk written right behind the file content extends it. */
  lemma AppendWrite(image: Image, data: seq<Sector>, blockSize: nat)
    ensures var flushed := image.Flushed(blockSize);
      image.WriteBlocks(|flushed|, data, blockSize).Flushed(blockSize) == flushed + data
  {
    var flushed := image.Flushed(blockSize);
    assert WriteAt(flushed, |flushed|, data, blockSize) == flushed + data;
    assert WriteAt(flushed + data, 0, [], blockSize) == flushed + data;
  }

  /**
   * Copies from `from` to the end of the range. The returned trace is the run of the machine it performs;
   * `hashed` is what the rolling hash was fed, and for a fresh image it is the image.
   */
  method CopyLoop(source: BlockSource, writer: RawImageWriter, badMap: BadSectorMap, vault: CaseVault,
                  job: Job, from: nat, interval: nat, st: Strategy)
    returns (ghost trace: seq<State>, hashed: seq<Sector>)
    requires writer.Valid() && job.responses == source.responses && WellSized(job.responses, job.blockSize)
    requires job.blockSize == source.blockSize == writer.blockSize
    requires job.startLba <= from && st.initialChunk != 0 && job.endLba + 1 < from + U32
    modifies source, writer, badMap, vault
    ensures PlainTrace(job, trace)
    ensures trace[0] == State(Looping, from, from, interval, st, old(badMap.View()), old(writer.View()),
                              old(vault.stored), old(source.log))
    ensures var last := trace[|trace| - 1];
      last.pc.Finished? && last.badMap == badMap.View() && last.image == writer.View() && last.stored == vault.stored
      && last.log == source.log
    ensures old(writer.View()) == Image([], 0, []) && from == job.startLba ==> hashed == writer.file
  {
    hide ReadChunk, Image.WriteBlocks, Image.Flushed, PlainTrace, WellSized;
    var currentLba: nat, lastCheckpointLba: nat := from, from;
    ghost var first := State(Looping, from, from, interval, st, badMap.View(), writer.View(), vault.stored, source.log);
    ghost var s := first;
    trace := [s];
    assert PlainTrace(job, trace) by { OneState(job, s); }
    hashed := [];
    ghost var startedFresh := writer.View() == Image([], 0, []) && from == job.startLba;
    NothingFlushed(job.blockSize);
    while currentLba <= job.endLba
      invariant writer.Valid() && from <= currentLba
      invariant |trace| != 0 && PlainTrace(job, trace) && trace[0] == first && trace[|trace| - 1] == s
      invariant s == State(Looping, currentLba, lastCheckpointLba, interval, st, badMap.View(), writer.View(),
                           vault.stored, source.log)
      invariant startedFresh ==> writer.View().Flushed(job.blockSize) == hashed && |hashed| == currentLba - job.startLba
      decreases job.endLba + 1 - currentLba
    {
      var remainingBlocks := (job.endLba - currentLba + 1) % U32;
      var chunkSectors := if st.initialChunk < remainingBlocks then st.initialChunk else remainingBlocks;
      var imageRelLba := currentLba - job.startLba;

      ChunkSize(job.responses, st, job.blockSize, currentLba, chunkSectors, badMap.View(), source.log);
      var chunkData := ReadChunkWithFallback(source, currentLba, chunkSectors, st, badMap);
      hashed := hashed + chunkData;
      AppendWrite(writer.View(), chunkData, job.blockSize);
      writer.WriteImageBlocks(imageRelLba, chunkData);
      currentLba := currentLba + chunkSectors;

      ghost var copied := s.(pc := Copied, cur := currentLba, badMap := badMap.View(), image := writer.View(),
                             log := source.log);
      assert CopyStep(job, s, copied);
      TraceExtends(job, trace, copied);
      trace := trace + [copied];

      if currentLba - lastCheckpointLba >= interval {
        lastCheckpointLba := currentLba;
        vault.UpdateCheckpoint(Checkpoint(currentLba, badMap.View()));
      }
      s := copied.(pc := Looping, lastCheckpoint := lastCheckpointLba, stored := vault.stored);
      TraceExtends(job, trace, s);
      trace := trace + [s];
    }
    var totalBlocks := writer.Finalize();
    ghost var done := s.(pc := Finished, image := writer.View());
    TraceExtends(job, trace, done);
    trace := trace + [done];
  }

  lemma OneState(job: Job, s: State)
    ensures PlainTrace(job, [s])
  {}

  lemma NothingFlushed(blockSize: nat)
    ensures Image([], 0, []).Flushed(blockSize) == []
  {}
}
