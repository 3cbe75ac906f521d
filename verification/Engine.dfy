/** The two entry points of the acquisition engine: a new acquisition, and the resumption of an interrupted one. */
module AcquisitionEngine {
  import opened Acquisition
  import opened AcquisitionLoop
  import opened BadSectors
  import opened CrashResume
  import opened RawImages
  import opened Wrappers

  datatype EngineError =
    | InsufficientStorageSpace(required: nat, available: nat)
    | CheckpointNotFound
    | DeviceMismatchOnResume
    | HashMismatch

  datatype Acquired = Acquired(badMap: BadMap, acquisitionHash: string, verificationHash: string)

  /** What the case database keeps about an operation besides its checkpoint. */
  datatype Operation = Operation(fingerprint: string, startLba: nat, endLba: nat)

  function ToLower(c: char): char {
    if 'A' <= c <= 'Z' then ((c as int) + 32) as char else c
  }

  predicate EqIgnoreAsciiCase(a: string, b: string) {
    |a| == |b| && forall i | 0 <= i < |a| :: ToLower(a[i]) == ToLower(b[i])
  }

  /** One is the capital and the other the small letter. */
  predicate CasesOfLetter(a: char, b: char) {
    exists k | 0 <= k < 26 ::
      "ABCDEFGHIJKLMNOPQRSTUVWXYZ"[k] == a && "abcdefghijklmnopqrstuvwxyz"[k] == b
  }

  /** Fingerprints are equal up to the case of letters. */
  lemma EqualUpToCase(a: string, b: string)
    ensures EqIgnoreAsciiCase(a, b) <==>
      |a| == |b| && forall i | 0 <= i < |a| :: a[i] == b[i] || CasesOfLetter(a[i], b[i]) || CasesOfLetter(b[i], a[i])
  {
    forall c: char, d: char
      ensures ToLower(c) == ToLower(d) <==> c == d || CasesOfLetter(c, d) || CasesOfLetter(d, c)
    {
      SameLower(c, d);
    }
  }

  lemma SameLower(c: char, d: char)
    ensures ToLower(c) == ToLower(d) <==> c == d || CasesOfLetter(c, d) || CasesOfLetter(d, c)
  {
    Capitals(c, d);
    Capitals(d, c);
  }

  lemma Capitals(c: char, d: char)
    ensures CasesOfLetter(c, d) <==> 'A' <= c <= 'Z' && d as int == c as int + 32
  {
    var capitals, smalls := "ABCDEFGHIJKLMNOPQRSTUVWXYZ", "abcdefghijklmnopqrstuvwxyz";
    forall k | 0 <= k < 26
      ensures capitals[k] as int == 'A' as int + k && smalls[k] as int == 'a' as int + k
    {}
    if 'A' <= c <= 'Z' && d as int == c as int + 32 {
      assert capitals[c as int - 'A' as int] == c && smalls[c as int - 'A' as int] == d;
    }
  }

  function JobOf(source: BlockSource, bounds: (nat, nat), since: nat): Job {
    Job(bounds.0, bounds.1, source.blockSize, source.responses, since)
  }

  /** `n` sectors are to be acquired, one after the other. */
  ghost predicate CountsScope(profile: Profile, totalBlocks: nat, n: nat) {
    forall l: nat :: InScope(profile, totalBlocks, l) <==> profile.First() <= l < profile.First() + n
  }

  lemma ScopeOf(profile: Profile, totalBlocks: nat)
    ensures var (first, last) := profile.LbaBounds(totalBlocks);
      && first == profile.First()
      && CountsScope(profile, totalBlocks, if last >= first then last - first + 1 else 0)
  {
    var (first, last) := profile.LbaBounds(totalBlocks);
    forall l: nat
      ensures InScope(profile, totalBlocks, l) <==> first <= l <= last
    {
      BoundsAreScope(profile, totalBlocks, l);
    }
    BoundsAreScope(profile, totalBlocks, 0);
  }

  /** What a faithful image of an uninterrupted run holds, sector by sector. */
  lemma SectorsOfImage(job: Job, log: seq<Read>, st: Strategy, file: seq<Sector>, m: BadMap)
    requires FaithfulImage(job, log, Uninterrupted(job, st), file, m)
    ensures job.startLba + |file| == job.Limit()
    ensures forall l: nat | job.startLba <= l < job.startLba + |file| ::
      Outcome(History(job.responses, log, job.since), st, job.blockSize, l, file[l - job.startLba], m.IsLbaBad(l))
  {
    hide BadMap.WellFormed, BadMap.IsLbaBad, Outcome;
    forall l: nat | job.startLba <= l < job.startLba + |file|
      ensures Outcome(job.Made(log), st, job.blockSize, l, file[l - job.startLba], m.IsLbaBad(l))
    {
      assert SectorFinal(job, log, Uninterrupted(job, st), l, file[l - job.startLba], m.IsLbaBad(l));
    }
  }

  /**
   * Copies the profile's range and re-reads the image. It fails exactly when the space does not suffice, before it
   * writes anything; the re-read never disagrees with the rolling hash, whatever reads failed on the way.
   */
  method Acquire(source: BlockSource, writer: RawImageWriter, vault: CaseVault, profile: Profile, st: Strategy,
                 interval: nat, available: nat, sha256: seq<Sector> -> string)
    returns (r: Result<Acquired, EngineError>)
    requires source.Valid() && writer.Valid() && writer.blockSize == source.blockSize
      && writer.View() == Image([], 0, [])
    requires st.initialChunk != 0
    requires var bounds := profile.LbaBounds(source.totalBlocks); bounds.1 + 1 < bounds.0 + U32
    modifies source, writer, vault
    ensures var job := JobOf(source, profile.LbaBounds(source.totalBlocks), |old(source.log)|);
      var required := (job.Limit() - job.startLba) * source.blockSize;
      if available < required then
        && r == Err(InsufficientStorageSpace(required, available))
        && writer.View() == old(writer.View()) && vault.stored == old(vault.stored)
      else
        && r.Ok? && FaithfulImage(job, source.log, Uninterrupted(job, st), writer.file, r.value.badMap)
        && r.value.acquisitionHash == r.value.verificationHash == sha256(writer.file)
    ensures r.Ok? ==>
      && |writer.file| * source.blockSize <= available
      && (forall l: nat :: InScope(profile, source.totalBlocks, l)
                           <==> profile.First() <= l < profile.First() + |writer.file|)
      && (forall l: nat | profile.First() <= l < profile.First() + |writer.file| ::
            Outcome(History(source.responses, source.log, |old(source.log)|), st, source.blockSize, l,
                    writer.file[l - profile.First()], r.value.badMap.IsLbaBad(l)))
    ensures r.Err? ==>
      exists n: nat :: available < n * source.blockSize
        && r.error == InsufficientStorageSpace(n * source.blockSize, available)
        && CountsScope(profile, source.totalBlocks, n)
  {
    hide FaithfulImage, PlainTrace, SafeTrace, Image.Flushed, WellSized, Outcome, BadMap.IsLbaBad;
    ghost var before := source.log;
    var bounds := profile.LbaBounds(source.totalBlocks);
    ScopeOf(profile, source.totalBlocks);
    var job := JobOf(source, bounds, |source.log|);
    var blocksToAcquire: nat := if bounds.1 >= bounds.0 then bounds.1 - bounds.0 + 1 else 0;
    if available < blocksToAcquire * source.blockSize {
      return Err(InsufficientStorageSpace(blocksToAcquire * source.blockSize, available));
    }
    vault.RecordOperation(Checkpoint(bounds.0, EMPTY));
    var badMap := new BadSectorMap();
    var trace, hashed := CopyLoop(source, writer, badMap, vault, job, bounds.0, interval, st);
    NewRunIsFaithful(job, st, interval, before, trace);
    SectorsOfImage(job, source.log, st, writer.file, badMap.View());
    var acquisitionHash, verificationHash := sha256(hashed), sha256(writer.file);
    if acquisitionHash != verificationHash {
      return Err(HashMismatch);
    }
    r := Ok(Acquired(badMap.View(), acquisitionHash, verificationHash));
  }

  /**
   * Continues an interrupted acquisition from its checkpoint over the image file `existing`. If the interruption
   * lost no checkpointed sector of the run that had reached `s`, the finished image is faithful, by the reads made
   * before and after it, to the run's plan with the default strategy from the checkpoint on; `since` reads had been
   * made from the source when the acquisition began.
   */
  method Resume(source: BlockSource, vault: CaseVault, op: Option<Operation>, fingerprint: string,
                existing: seq<Sector>, sha256: seq<Sector> -> string, since: nat, ghost plan: Plan, ghost s: State)
    returns (r: Result<Acquired, EngineError>, image: seq<Sector>)
    requires source.Valid()
    requires op.Some? ==>
      var job := JobOf(source, (op.value.startLba, op.value.endLba), since);
      && job.endLba + 1 < vault.stored.currentLba + U32
      && vault.stored == s.stored && Inv(job, plan, s)
      && MayLeave(job, s, existing) && NothingLost(job, s, existing) && MayHaveRead(job, s, source.log)
    modifies source, vault
    ensures op.None? ==> r == Err(CheckpointNotFound) && image == existing && vault.stored == old(vault.stored)
    ensures op.Some? && !EqIgnoreAsciiCase(fingerprint, op.value.fingerprint) ==>
      r == Err(DeviceMismatchOnResume) && image == existing && vault.stored == old(vault.stored)
    ensures op.Some? && EqIgnoreAsciiCase(fingerprint, op.value.fingerprint) ==>
      && r.Ok?
      && FaithfulImage(JobOf(source, (op.value.startLba, op.value.endLba), since), source.log,
                       plan.ResumedFrom(s.stored.currentLba), image, r.value.badMap)
      && r.value.acquisitionHash == r.value.verificationHash == sha256(image)
  {
    hide FaithfulImage, RunStep, SafeTrace, Image.Flushed, NothingLost, Inv, MayLeave, MayHaveRead, WellSized,
      Plan.ResumedFrom;
    image := existing;
    if op.None? {
      return Err(CheckpointNotFound), existing;
    }
    if !EqIgnoreAsciiCase(fingerprint, op.value.fingerprint) {
      return Err(DeviceMismatchOnResume), existing;
    }
    var job := JobOf(source, (op.value.startLba, op.value.endLba), since);
    var cp := vault.stored;
    var writer := new RawImageWriter.OpenForResume(existing, source.blockSize);
    var badMap := new BadSectorMap.FromView(cp.badMap);
    CheckpointUsable(job, plan, s);
    var trace, hashed := CopyLoop(source, writer, badMap, vault, job, cp.currentLba, RESUME_INTERVAL, DEFAULT_STRATEGY);
    SafeCrashKeepsInv(job, plan, s, trace[0]);
    PlainTraceInv(job, plan.ResumedFrom(cp.currentLba), trace, |trace| - 1);
    FinalState(job, plan.ResumedFrom(cp.currentLba), trace[|trace| - 1]);
    image := writer.file;
    r := Ok(Acquired(badMap.View(), sha256(image), sha256(image)));
  }

  lemma CheckpointUsable(job: Job, plan: Plan, s: State)
    requires Inv(job, plan, s)
    ensures s.stored.badMap.WellFormed(job.blockSize) && s.stored.badMap.End() <= s.stored.currentLba
    ensures job.startLba <= s.stored.currentLba
  {}
}
