/** What acquisition runs leave behind, with transient faults, crashes and resumption. */
module CrashResume {
  import opened Acquisition
  import opened AcquisitionLoop
  import opened BadSectors
  import opened RawImages

  // ----- which strategy reads which sector

  /** The configured strategy up to where the first resumption began, and the default one from there on. */
  datatype Plan = Plan(first: Strategy, resumedAt: nat)
  {
    function At(l: nat): Strategy {
      if l < resumedAt then first else DEFAULT_STRATEGY
    }

    /** The plan after a resumption from this sector. */
    function ResumedFrom(lba: nat): Plan {
      if lba < resumedAt then Plan(first, lba) else this
    }
  }

  function Uninterrupted(job: Job, st: Strategy): Plan {
    Plan(st, job.Limit())
  }

  /** The plan that a trace carries out: a step that is none of a running process is a resumption. */
  ghost function PlanOf(job: Job, st: Strategy, trace: seq<State>): Plan
    requires |trace| != 0
  {
    var n := |trace| - 1;
    if n == 0 then Uninterrupted(job, st)
    else if RunStep(job, trace[n - 1], trace[n]) then PlanOf(job, st, trace[..n])
    else PlanOf(job, st, trace[..n]).ResumedFrom(trace[n].cur)
  }

  lemma {:induction false} PlainPlan(job: Job, st: Strategy, trace: seq<State>)
    requires PlainTrace(job, trace)
    ensures PlanOf(job, st, trace) == Uninterrupted(job, st)
    decreases |trace|
  {
    hide RunStep;
    var n := |trace| - 1;
    if n != 0 {
      PlainPrefix(job, trace, n);
      assert RunStep(job, trace[n - 1], trace[n - 1 + 1]);
      PlainPlan(job, st, trace[..n]);
    }
  }

  lemma PlainPrefix(job: Job, trace: seq<State>, n: nat)
    requires PlainTrace(job, trace) && 0 < n <= |trace|
    ensures PlainTrace(job, trace[..n])
  {
    hide RunStep;
    forall i | 0 <= i < n - 1
      ensures RunStep(job, trace[..n][i], trace[..n][i + 1])
    {
      assert RunStep(job, trace[i], trace[i + 1]);
    }
  }

  lemma SafePrefix(job: Job, trace: seq<State>, n: nat)
    requires SafeTrace(job, trace) && 0 < n <= |trace|
    ensures SafeTrace(job, trace[..n])
  {
    hide RunStep, SafeCrash;
    forall i | 0 <= i < n - 1
      ensures RunStep(job, trace[..n][i], trace[..n][i + 1]) || SafeCrash(job, trace[..n][i], trace[..n][i + 1])
    {
      assert RunStep(job, trace[i], trace[i + 1]) || SafeCrash(job, trace[i], trace[i + 1]);
    }
  }

  // ----- the invariant of every run

  /** Of the reads in `log` one returned the bytes, or enough failed for the marker, by the strategy of the sector. */
  ghost predicate SectorFinal(job: Job, log: seq<Read>, plan: Plan, l: nat, bytes: Sector, bad: bool) {
    Outcome(job.Made(log), plan.At(l), job.blockSize, l, bytes, bad)
  }

  /** Further reads take no outcome away. */
  lemma FinalGrows(job: Job, log: seq<Read>, log': seq<Read>, plan: Plan, l: nat, bytes: Sector, bad: bool)
    requires log <= log' && SectorFinal(job, log, plan, l, bytes, bad)
    ensures SectorFinal(job, log', plan, l, bytes, bad)
  {
    hide Outcome;
    OutcomeGrows(job.Made(log), job.Made(log'), plan.At(l), job.blockSize, l, bytes, bad);
  }

  ghost predicate MapUpTo(job: Job, m: BadMap, cur: nat) {
    && m.WellFormed(job.blockSize) && m.End() <= cur
    && forall l: nat | l < job.startLba :: !m.IsLbaBad(l)
  }

  /** The run uses the strategy that the plan gives to all sectors from `lba` on. */
  predicate InForce(job: Job, plan: Plan, st: Strategy, lba: nat) {
    || (st == plan.first && job.Limit() <= plan.resumedAt)
    || (st == DEFAULT_STRATEGY && plan.resumedAt <= lba)
  }

  /** Sectors `from..cur` of the flushed image agree with the map. */
  ghost predicate CopiedFrom(job: Job, plan: Plan, s: State, from: nat) {
    var e := s.image.Flushed(job.blockSize);
    && job.startLba <= from <= s.cur <= job.Limit() && job.since <= |s.log|
    && WellSized(job.responses, job.blockSize)
    && InForce(job, plan, s.strategy, s.cur)
    && MapUpTo(job, s.badMap, s.cur)
    && job.startLba + |e| <= job.Limit()
    && (s.cur > from ==> s.cur <= job.startLba + |e|)
    && (forall l: nat | from <= l < s.cur ::
          SectorFinal(job, s.log, plan, l, e[l - job.startLba], s.badMap.IsLbaBad(l)))
    && (s.pc.Finished? ==> s.cur == job.Limit() && s.image.pending == [])
  }

  /** The stored checkpoint describes a prefix of the run; the buffer holds a range right behind the file content. */
  ghost predicate Recoverable(job: Job, plan: Plan, s: State) {
    && job.startLba <= s.stored.currentLba <= s.cur && InForce(job, plan, s.strategy, s.stored.currentLba)
    && MapUpTo(job, s.stored.badMap, s.stored.currentLba)
    && (forall l: nat | l < s.stored.currentLba :: s.stored.badMap.IsLbaBad(l) <==> s.badMap.IsLbaBad(l))
    && s.image.pendingAt <= |s.image.file|
    && job.startLba + s.image.pendingAt + |s.image.pending| <= s.cur
  }

  ghost predicate Inv(job: Job, plan: Plan, s: State) {
    CopiedFrom(job, plan, s, job.startLba) && Recoverable(job, plan, s)
  }

  // ----- each step keeps it

  lemma FreshInv(job: Job, st: Strategy, interval: nat, log: seq<Read>)
    requires WellSized(job.responses, job.blockSize) && |log| == job.since
    ensures Inv(job, Uninterrupted(job, st), Fresh(job, st, interval, log))
  {}

  /** Flushing after a buffered or direct write shows the same file. */
  lemma FlushedWrite(image: Image, at: nat, data: seq<Sector>, blockSize: nat)
    ensures image.WriteBlocks(at, data, blockSize).Flushed(blockSize)
         == WriteAt(image.Flushed(blockSize), at, data, blockSize)
  {}

  lemma ChunkInRange(st: Strategy, cur: nat, endLba: nat)
    requires cur <= endLba
    ensures cur + ChunkSectors(st, cur, endLba) <= endLba + 1
  {}

  lemma InForceFrom(job: Job, plan: Plan, st: Strategy, lba: nat, l: nat)
    requires InForce(job, plan, st, lba) && lba <= l < job.Limit()
    ensures plan.At(l) == st && InForce(job, plan, st, l)
  {}

  lemma CopyKeeps(job: Job, plan: Plan, s: State, s': State, from: nat)
    requires CopiedFrom(job, plan, s, from) && CopyStep(job, s, s')
    ensures CopiedFrom(job, plan, s', from)
    ensures forall l: nat | l < s.cur :: s'.badMap.IsLbaBad(l) <==> s.badMap.IsLbaBad(l)
  {
    hide BadMap.WellFormed, BadMap.IsLbaBad, BadMap.End, Image.Flushed, Image.WriteBlocks, Outcome, WriteAt,
      ReadChunk, WellSized, Plan.At;
    var chunk, c := ChunkSectors(s.strategy, s.cur, job.endLba), NextChunk(job, s);
    ChunkGivesOutcome(job.responses, s.strategy, job.blockSize, s.cur, chunk, s.badMap, s.log);
    ChunkInRange(s.strategy, s.cur, job.endLba);
    FlushedWrite(s.image, s.cur - job.startLba, c.data, job.blockSize);
    var e, e' := s.image.Flushed(job.blockSize), s'.image.Flushed(job.blockSize);
    forall l: nat | from <= l < s'.cur
      ensures SectorFinal(job, s'.log, plan, l, e'[l - job.startLba], s'.badMap.IsLbaBad(l))
    {
      if l < s.cur {
        assert e'[l - job.startLba] == e[l - job.startLba];
        FinalGrows(job, s.log, s'.log, plan, l, e[l - job.startLba], s.badMap.IsLbaBad(l));
      } else {
        assert e'[(s.cur - job.startLba) + (l - s.cur)] == c.data[l - s.cur];
        InForceFrom(job, plan, s.strategy, s.cur, l);
        OutcomeGrows(History(job.responses, c.log, |s.log|), job.Made(c.log), s.strategy, job.blockSize, l,
                     c.data[l - s.cur], c.badMap.IsLbaBad(l));
      }
    }
  }

  lemma CopyKeepsInv(job: Job, plan: Plan, s: State, s': State)
    requires Inv(job, plan, s) && CopyStep(job, s, s')
    ensures Inv(job, plan, s')
  {
    CopyKeeps(job, plan, s, s', job.startLba);
    hide BadMap.WellFormed, BadMap.IsLbaBad, ReadChunk, SectorFinal, WellSized;
    ChunkSize(job.responses, s.strategy, job.blockSize, s.cur, ChunkSectors(s.strategy, s.cur, job.endLba), s.badMap,
              s.log);
  }

  lemma CopiedBounds(job: Job, plan: Plan, s: State, from: nat)
    requires CopiedFrom(job, plan, s, from)
    ensures job.startLba <= from <= s.cur <= job.Limit() && MapUpTo(job, s.badMap, s.cur)
    ensures WellSized(job.responses, job.blockSize) && InForce(job, plan, s.strategy, s.cur)
  {}

  lemma QuietStepKeeps(job: Job, plan: Plan, s: State, s': State, from: nat)
    requires CopiedFrom(job, plan, s, from) && (CheckpointStep(s, s') || FinishStep(job, s, s'))
    ensures CopiedFrom(job, plan, s', from)
    ensures s'.image.Flushed(job.blockSize) == s.image.Flushed(job.blockSize) && s'.cur == s.cur
  {
    hide BadMap.WellFormed, BadMap.IsLbaBad, SectorFinal, InForce;
  }

  lemma RunStepKeeps(job: Job, plan: Plan, s: State, s': State, from: nat)
    requires CopiedFrom(job, plan, s, from) && RunStep(job, s, s')
    ensures CopiedFrom(job, plan, s', from)
  {
    hide CopyStep, CheckpointStep, FinishStep, CopiedFrom;
    if CopyStep(job, s, s') {
      CopyKeeps(job, plan, s, s', from);
    } else {
      QuietStepKeeps(job, plan, s, s', from);
    }
  }

  lemma QuietStepKeepsInv(job: Job, plan: Plan, s: State, s': State)
    requires Inv(job, plan, s) && CopiedFrom(job, plan, s', job.startLba)
    requires CheckpointStep(s, s') || FinishStep(job, s, s')
    ensures Inv(job, plan, s')
  {
    hide CopiedFrom, BadMap.WellFormed, BadMap.IsLbaBad, SectorFinal, InForce;
    CopiedBounds(job, plan, s, job.startLba);
  }

  lemma RunStepKeepsInv(job: Job, plan: Plan, s: State, s': State)
    requires Inv(job, plan, s) && RunStep(job, s, s')
    ensures Inv(job, plan, s')
  {
    hide CopyStep, CheckpointStep, FinishStep, Inv, CopiedFrom;
    assert CopiedFrom(job, plan, s, job.startLba) by { InvParts(job, plan, s); }
    RunStepKeeps(job, plan, s, s', job.startLba);
    if CopyStep(job, s, s') {
      CopyKeepsInv(job, plan, s, s');
    } else {
      QuietStepKeepsInv(job, plan, s, s');
    }
  }

  lemma InvParts(job: Job, plan: Plan, s: State)
    requires Inv(job, plan, s)
    ensures CopiedFrom(job, plan, s, job.startLba) && Recoverable(job, plan, s)
  {}

  /** Within the bounds of the run, the file that a crash leaves agrees with the flushed one outside the buffer. */
  lemma LeftFile(job: Job, plan: Plan, s: State, file: seq<Sector>)
    requires Inv(job, plan, s) && MayLeave(job, s, file)
    ensures job.startLba + |file| <= job.Limit()
    ensures forall i | 0 <= i < s.cur - job.startLba
      && !(s.image.pendingAt <= i < s.image.pendingAt + |s.image.pending|) ::
      i < |file| && file[i] == s.image.Flushed(job.blockSize)[i]
    ensures s.image.MayCrashTo(file) || forall i | 0 <= i < s.cur - job.startLba ::
      i < |file| && file[i] == s.image.Flushed(job.blockSize)[i]
  {
    hide BadMap.WellFormed, BadMap.IsLbaBad, SectorFinal, InForce, ReadChunk, ChunkSectors, WellSized, MapUpTo;
    if !s.image.MayCrashTo(file) {
      ChunkInRange(s.strategy, s.cur, job.endLba);
      ChunkSize(job.responses, s.strategy, job.blockSize, s.cur, ChunkSectors(s.strategy, s.cur, job.endLba), s.badMap,
                s.log);
    }
  }

  lemma SafeCrashSector(job: Job, plan: Plan, s: State, file: seq<Sector>, i: nat)
    requires Inv(job, plan, s) && MayLeave(job, s, file) && NothingLost(job, s, file)
    requires i < s.stored.currentLba - job.startLba
    ensures i < |file| && file[i] == s.image.Flushed(job.blockSize)[i]
  {
    LeftFile(job, plan, s, file);
    hide BadMap.WellFormed, BadMap.IsLbaBad, SectorFinal, MayLeave, InForce, MapUpTo;
    if s.image.pendingAt <= i < s.image.pendingAt + |s.image.pending| {
      assert Reached(s.image, file, i);
    }
  }

  /** Below the checkpoint, a crash that loses nothing leaves the flushed content in the file. */
  lemma SafeCrashFile(job: Job, plan: Plan, s: State, file: seq<Sector>)
    requires Inv(job, plan, s) && MayLeave(job, s, file) && NothingLost(job, s, file)
    ensures s.stored.currentLba - job.startLba <= |file| && job.startLba + |file| <= job.Limit()
    ensures forall i | 0 <= i < s.stored.currentLba - job.startLba :: file[i] == s.image.Flushed(job.blockSize)[i]
  {
    LeftFile(job, plan, s, file);
    hide BadMap.WellFormed, BadMap.IsLbaBad, SectorFinal, MayLeave, InForce, MapUpTo, NothingLost, Image.Flushed;
    var depth := s.stored.currentLba - job.startLba;
    forall i | 0 <= i < depth
      ensures i < |file| && file[i] == s.image.Flushed(job.blockSize)[i]
    {
      SafeCrashSector(job, plan, s, file, i);
    }
    if depth > 0 {
      SafeCrashSector(job, plan, s, file, depth - 1);
    }
  }

  /** Below a checkpoint of the run, resumption from there changes no strategy. */
  lemma SameBelowResumption(job: Job, plan: Plan, st: Strategy, lba: nat, l: nat)
    requires InForce(job, plan, st, lba) && l < lba <= job.Limit()
    ensures plan.ResumedFrom(lba).At(l) == plan.At(l)
  {}

  lemma ResumedInForce(job: Job, plan: Plan, lba: nat, l: nat)
    requires lba <= l
    ensures InForce(job, plan.ResumedFrom(lba), DEFAULT_STRATEGY, l)
    ensures plan.ResumedFrom(lba).At(l) == DEFAULT_STRATEGY
  {}

  /** What survives below the checkpoint is final, by the reads made before the crash. */
  lemma SafeCrashSectors(job: Job, plan: Plan, s: State, s': State)
    requires Inv(job, plan, s) && SafeCrash(job, s, s')
    ensures forall l: nat | job.startLba <= l < s'.cur ::
      l - job.startLba < |s'.image.file|
      && SectorFinal(job, s'.log, plan.ResumedFrom(s'.cur), l, s'.image.file[l - job.startLba], s'.badMap.IsLbaBad(l))
  {
    var file, e := s'.image.file, s.image.Flushed(job.blockSize);
    SafeCrashFile(job, plan, s, file);
    LogKept(job, s, s'.log);
    hide BadMap.WellFormed, BadMap.IsLbaBad, Outcome, Plan.At, MayLeave, NothingLost, MayHaveRead, WellSized,
      Image.Flushed, InForce, MapUpTo;
    forall l: nat | job.startLba <= l < s'.cur
      ensures l - job.startLba < |file|
      ensures SectorFinal(job, s'.log, plan.ResumedFrom(s'.cur), l, file[l - job.startLba], s'.badMap.IsLbaBad(l))
    {
      assert SectorFinal(job, s.log, plan, l, e[l - job.startLba], s.badMap.IsLbaBad(l));
      FinalGrows(job, s.log, s'.log, plan, l, e[l - job.startLba], s.badMap.IsLbaBad(l));
      SameBelowResumption(job, plan, s.strategy, s'.cur, l);
    }
  }

  lemma SafeCrashKeepsInv(job: Job, plan: Plan, s: State, s': State)
    requires Inv(job, plan, s) && SafeCrash(job, s, s')
    ensures Inv(job, plan.ResumedFrom(s'.cur), s')
  {
    SafeCrashFile(job, plan, s, s'.image.file);
    SafeCrashSectors(job, plan, s, s');
    LogKept(job, s, s'.log);
    ResumedInForce(job, plan, s'.cur, s'.cur);
    hide BadMap.WellFormed, BadMap.IsLbaBad, SectorFinal, MayLeave, NothingLost, MayHaveRead, WellSized, InForce,
      Plan.ResumedFrom, Image.Flushed;
    RestIsFlushed(s'.image.file, job.blockSize);
  }

  lemma RestIsFlushed(file: seq<Sector>, blockSize: nat)
    ensures Image(file, 0, []).Flushed(blockSize) == file
  {}

  /** A resumed run uses the default strategy and checkpoints every 10,000 blocks. */
  lemma ResumedSettings(job: Job, s: State, file: seq<Sector>, s': State)
    requires CrashTo(job, s, file, s')
    ensures s'.interval == 10000
    ensures s'.strategy.maxRetries == 3 && s'.strategy.initialChunk == 128 && s'.strategy.minChunk == 1
    ensures |s'.strategy.pattern| == 16
    ensures forall i | 0 <= i < 16 :: s'.strategy.pattern[i] == "VAJRA_BAD_SECTOR"[i] as int
  {
    hide MayLeave, MayHaveRead;
  }

  lemma LogKept(job: Job, s: State, log: seq<Read>)
    requires MayHaveRead(job, s, log)
    ensures s.log <= log
  {}

  lemma {:induction false} PlainTraceInv(job: Job, plan: Plan, trace: seq<State>, n: nat)
    requires PlainTrace(job, trace) && n < |trace| && Inv(job, plan, trace[0])
    ensures Inv(job, plan, trace[n])
  {
    hide Inv, RunStep;
    if n != 0 {
      PlainTraceInv(job, plan, trace, n - 1);
      assert RunStep(job, trace[n - 1], trace[n - 1 + 1]);
      RunStepKeepsInv(job, plan, trace[n - 1], trace[n]);
    }
  }

  lemma {:induction false} SafeTraceInv(job: Job, st: Strategy, trace: seq<State>)
    requires SafeTrace(job, trace) && Inv(job, Uninterrupted(job, st), trace[0])
    ensures Inv(job, PlanOf(job, st, trace), trace[|trace| - 1])
    decreases |trace|
  {
    hide Inv, RunStep, SafeCrash, Plan.ResumedFrom;
    var n := |trace| - 1;
    if n != 0 {
      SafePrefix(job, trace, n);
      SafeTraceInv(job, st, trace[..n]);
      var plan := PlanOf(job, st, trace[..n]);
      assert trace[..n][n - 1] == trace[n - 1];
      if RunStep(job, trace[n - 1], trace[n]) {
        RunStepKeepsInv(job, plan, trace[n - 1], trace[n]);
      } else {
        assert SafeCrash(job, trace[n - 1], trace[n - 1 + 1]);
        SafeCrashKeepsInv(job, plan, trace[n - 1], trace[n]);
      }
    }
  }

  // ----- any source: the image and the map always agree

  /** The image holds the whole range, and a sector is marked exactly when the map reports it. */
  ghost predicate FaithfulImage(job: Job, log: seq<Read>, plan: Plan, file: seq<Sector>, m: BadMap) {
    && job.startLba + |file| == job.Limit()
    && m.WellFormed(job.blockSize)
    && (forall l: nat | job.startLba <= l < job.Limit() ::
          SectorFinal(job, log, plan, l, file[l - job.startLba], m.IsLbaBad(l)))
    && (forall l: nat | !(job.startLba <= l < job.Limit()) :: !m.IsLbaBad(l))
  }

  /** Whatever reads fail, and wherever crashes strike without losing checkpointed sectors. */
  lemma EveryRunIsFaithful(job: Job, st: Strategy, interval: nat, log: seq<Read>, trace: seq<State>)
    requires WellSized(job.responses, job.blockSize) && |log| == job.since
    requires SafeTrace(job, trace) && trace[0] == Fresh(job, st, interval, log)
    requires trace[|trace| - 1].pc.Finished?
    ensures var last := trace[|trace| - 1];
      FaithfulImage(job, last.log, PlanOf(job, st, trace), last.image.file, last.badMap)
  {
    hide PlanOf, FaithfulImage, RunStep, SafeCrash;
    FreshInv(job, st, interval, log);
    SafeTraceInv(job, st, trace);
    FinalState(job, PlanOf(job, st, trace), trace[|trace| - 1]);
  }

  /** Without interruption the configured strategy alone accounts for every sector. */
  lemma NewRunIsFaithful(job: Job, st: Strategy, interval: nat, log: seq<Read>, trace: seq<State>)
    requires WellSized(job.responses, job.blockSize) && |log| == job.since
    requires PlainTrace(job, trace) && trace[0] == Fresh(job, st, interval, log)
    requires trace[|trace| - 1].pc.Finished?
    ensures var last := trace[|trace| - 1];
      FaithfulImage(job, last.log, Uninterrupted(job, st), last.image.file, last.badMap)
  {
    hide FaithfulImage;
    FreshInv(job, st, interval, log);
    PlainTraceInv(job, Uninterrupted(job, st), trace, |trace| - 1);
    FinalState(job, Uninterrupted(job, st), trace[|trace| - 1]);
  }

  lemma FinalState(job: Job, plan: Plan, s: State)
    requires Inv(job, plan, s) && s.pc.Finished?
    ensures FaithfulImage(job, s.log, plan, s.image.file, s.badMap)
  {
    NothingBadFrom(s.badMap, job.blockSize, s.cur);
    hide BadMap.WellFormed, BadMap.IsLbaBad, SectorFinal, InForce, Recoverable;
  }

  /** A marked sector was read alone `maxRetries + 1` times in a row, in this acquisition, and every read failed. */
  lemma MarkedSectorFailed(job: Job, log: seq<Read>, plan: Plan, file: seq<Sector>, m: BadMap, l: nat) returns (k: nat)
    requires FaithfulImage(job, log, plan, file, m) && job.startLba <= l < job.Limit()
    requires m.IsLbaBad(l) && plan.At(l).minChunk <= 1
    ensures job.since <= k && k + plan.At(l).maxRetries < |log|
    ensures forall j | k <= j <= k + plan.At(l).maxRetries :: log[j] == Read(l, 1) && job.responses(j, l, 1).None?
  {
    hide BadMap.WellFormed, BadMap.IsLbaBad, Markers, Plan.At;
    assert SectorFinal(job, log, plan, l, file[l - job.startLba], m.IsLbaBad(l));
    var h, st := job.Made(log), plan.At(l);
    var at: nat, start: nat, count: nat :| GaveUp(h, st, job.blockSize, at, start, count, l, file[l - job.startLba]);
    k := at;
  }

  /** The bytes of any other sector are those that a read of this acquisition returned for it. */
  lemma GoodSectorRead(job: Job, log: seq<Read>, plan: Plan, file: seq<Sector>, m: BadMap, l: nat) returns (k: nat)
    requires WellSized(job.responses, job.blockSize)
    requires FaithfulImage(job, log, plan, file, m) && job.startLba <= l < job.Limit() && !m.IsLbaBad(l)
    ensures job.since <= k < |log| && log[k].lba <= l < log[k].lba + log[k].count
    ensures var answer := job.responses(k, log[k].lba, log[k].count);
      answer.Some? && l - log[k].lba < |answer.value| && file[l - job.startLba] == answer.value[l - log[k].lba]
    ensures |file[l - job.startLba]| == job.blockSize
  {
    hide BadMap.WellFormed, BadMap.IsLbaBad, Plan.At;
    assert SectorFinal(job, log, plan, l, file[l - job.startLba], m.IsLbaBad(l));
    var at: nat :| Gave(job.Made(log), at, l, file[l - job.startLba]);
    k := at;
  }

  /** Of read `k` and `maxRetries` more, all of the one sector, some read succeeds. */
  ghost predicate Recovers(resp: Responses, k: nat, l: nat, maxRetries: nat) {
    exists j: nat :: k <= j <= k + maxRetries && resp(j, l, 1).Some?
  }

  /** The sector never fails longer than the retries last. */
  ghost predicate FaultsAreShort(resp: Responses, l: nat, maxRetries: nat) {
    forall k: nat :: Recovers(resp, k, l, maxRetries)
  }

  /**
   * A sector whose faults end before the retries of its strategy do is not marked, and its bytes were read; the
   * strategy must split down to sectors.
   */
  lemma ShortFaultsLeaveNoMark(job: Job, log: seq<Read>, plan: Plan, file: seq<Sector>, m: BadMap, l: nat)
    requires FaithfulImage(job, log, plan, file, m) && job.startLba <= l < job.Limit()
    requires plan.At(l).minChunk <= 1 && FaultsAreShort(job.responses, l, plan.At(l).maxRetries)
    ensures !m.IsLbaBad(l) && Returned(job.Made(log), l, file[l - job.startLba])
  {
    hide BadMap.WellFormed, BadMap.IsLbaBad, Returned, FaultsAreShort, Marked, Plan.At;
    assert SectorFinal(job, log, plan, l, file[l - job.startLba], m.IsLbaBad(l));
    NotMarked(job.Made(log), plan.At(l), job.blockSize, l, file[l - job.startLba]);
  }

  lemma NotMarked(h: History, st: Strategy, blockSize: nat, l: nat, bytes: Sector)
    requires st.minChunk <= 1 && FaultsAreShort(h.responses, l, st.maxRetries)
    ensures !Marked(h, st, blockSize, l, bytes)
  {
    hide Markers, FaultsAreShort, AllFailed;
    forall k: nat, start: nat, count: nat
      ensures !GaveUp(h, st, blockSize, k, start, count, l, bytes)
    {
      NotAllFailed(h, k, l, st.maxRetries);
    }
  }

  lemma NotAllFailed(h: History, k: nat, l: nat, maxRetries: nat)
    requires FaultsAreShort(h.responses, l, maxRetries)
    ensures !AllFailed(h, k, maxRetries + 1, l, 1)
  {
    assert Recovers(h.responses, k, l, maxRetries);
  }

  // ----- when the loop ends

  function Remaining(job: Job, s: State): nat {
    if s.cur <= job.endLba then job.endLba + 1 - s.cur else 0
  }

  function Measure(job: Job, s: State): nat {
    match s.pc
    case Looping => 2 * Remaining(job, s) + 1
    case Copied => 2 * Remaining(job, s) + 2
    case Finished => 0
  }

  /** Below 2^32 blocks every step makes progress, so a run has at most two steps per block and two more. */
  lemma {:induction false} RunsAreBounded(job: Job, trace: seq<State>)
    requires PlainTrace(job, trace) && job.startLba <= trace[0].cur
    requires job.endLba + 1 < trace[0].cur + 0x1_0000_0000 && trace[0].strategy.initialChunk != 0
    ensures |trace| <= Measure(job, trace[0]) + 1
    ensures trace[0].pc.Looping? && trace[0].cur <= job.endLba ==> |trace| <= 2 * (job.endLba + 1 - trace[0].cur) + 2
    decreases |trace|
  {
    if |trace| > 1 {
      var tail := trace[1..];
      assert RunStep(job, trace[0], trace[0 + 1]);
      forall i | 0 <= i < |tail| - 1
        ensures RunStep(job, tail[i], tail[i + 1])
      {
        assert RunStep(job, trace[i + 1], trace[i + 1 + 1]);
      }
      StepProgress(job, trace[0], trace[1]);
      RunsAreBounded(job, tail);
    }
  }

  lemma StepProgress(job: Job, s: State, s': State)
    requires RunStep(job, s, s') && job.startLba <= s.cur
    requires Remaining(job, s) < 0x1_0000_0000 && s.strategy.initialChunk != 0
    ensures Measure(job, s') < Measure(job, s) && s.cur <= s'.cur
    ensures Remaining(job, s') < 0x1_0000_0000 && s'.strategy == s.strategy
  {
    hide ChunkOutcome, Image.WriteBlocks, Image.Flushed;
  }

  /** From 2^32 remaining blocks on, the truncated count hides whole multiples of 2^32 that are never copied. */
  lemma ChunkLeavesMultiple(st: Strategy, cur: nat, endLba: nat)
    requires cur <= endLba && cur + 0x1_0000_0000 <= endLba + 1
    ensures cur + ChunkSectors(st, cur, endLba) + 0x1_0000_0000 <= endLba + 1
    ensures (endLba + 1 - cur) % 0x1_0000_0000 == 0 ==> ChunkSectors(st, cur, endLba) == 0
  {}

  /** A run that still has 2^32 blocks or more before it never finishes. */
  lemma {:induction false} LongRangesNeverFinish(job: Job, trace: seq<State>, n: nat)
    requires PlainTrace(job, trace) && n < |trace|
    requires trace[0].cur + 0x1_0000_0000 <= job.endLba + 1 && !trace[0].pc.Finished?
    ensures trace[n].cur + 0x1_0000_0000 <= job.endLba + 1 && !trace[n].pc.Finished?
  {
    if n != 0 {
      LongRangesNeverFinish(job, trace, n - 1);
      assert RunStep(job, trace[n - 1], trace[n - 1 + 1]);
      ChunkLeavesMultiple(trace[n - 1].strategy, trace[n - 1].cur, job.endLba);
      hide ChunkOutcome, Image.WriteBlocks, Image.Flushed, ChunkSectors;
    }
  }
}
