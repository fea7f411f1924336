/** The code's transactions are runs of the abstract system: seen through a reading of the
    stored form, every walk of the commit protocol is a sequence of system calls of one process
    in the world of CommitProtocol. */
module Refinement {
  import opened Wrappers
  import opened CommitProtocol
  import opened CommitRuns

  // ---------- Reading the stored form ----------

  function ReadContents<S, T>(f: S -> T, contents: Contents<S>): Contents<T> {
    match contents case Torn => Torn case Intact(state) => Intact(f(state))
  }

  function ReadFile<S, T>(f: S -> T, file: File<S>): File<T> { File(ReadContents(f, file.contents), file.synced) }

  function ReadOption<S, T>(f: S -> T, value: Option<S>): Option<T> {
    match value case None => None case Some(state) => Some(f(state))
  }

  ghost function ReadDisk<S(!new), T(!new)>(f: S -> T, disk: Disk<S>): Disk<T> {
    Disk(ReadFile(f, disk.installed),
         set file | file in disk.displaced :: ReadFile(f, file),
         match disk.temp case None => None case Some(file) => Some(ReadFile(f, file)),
         disk.latch, disk.latchOutcomes, disk.lockEntryDurable)
  }

  function ReadReason<S, T>(f: S -> T, reason: Reason<S>): Reason<T> {
    match reason case Commit(state) => Commit(f(state)) case Unwind => Unwind case Recovery => Recovery
  }

  function ReadEnd<S, T>(f: S -> T, end: End<S>): End<T> {
    match end
    case Committed(state) => Committed(f(state))
    case Observed(state) => Observed(f(state))
    case Recovered => Recovered
    case Blocked => Blocked
    case Raised => Raised
  }

  function ReadPhase<S, T>(f: S -> T, phase: Phase<S>): Phase<T> {
    match phase
    case Entered(kind) => Entered(kind)
    case Healthy => Healthy
    case Loaded(base) => Loaded(f(base))
    case Updated(next) => Updated(f(next))
    case Ready(next) => Ready(f(next))
    case TempWritten(next) => TempWritten(f(next))
    case TempSynced(next) => TempSynced(f(next))
    case MarkWritten(next) => MarkWritten(f(next))
    case MarkSynced(next) => MarkSynced(f(next))
    case Marked(next) => Marked(f(next))
    case Renamed(next) => Renamed(f(next))
    case Clearing(reason) => Clearing(ReadReason(f, reason))
    case Truncated(reason) => Truncated(ReadReason(f, reason))
    case ClearSynced(reason) => ClearSynced(ReadReason(f, reason))
    case Relatching => Relatching
    case Inspected => Inspected
    case StateSynced => StateSynced
    case Finished(end) => Finished(ReadEnd(f, end))
  }

  ghost function ReadConfig<S(!new), T(!new)>(f: S -> T, c: Config<S>): Config<T> {
    Config(ReadDisk(f, c.disk), c.latched, ReadPhase(f, c.phase))
  }

  lemma RenameReads<S(!new), T(!new)>(f: S -> T, disk: Disk<S>, io: Io)
    ensures ReadDisk(f, Rename(disk, io)) == Rename(ReadDisk(f, disk), io)
  {
    if io.Done? && disk.temp.Some? {
      assert ReadDisk(f, Rename(disk, io)).displaced == Rename(ReadDisk(f, disk), io).displaced;
    }
  }

  lemma SyncDirectoryReads<S(!new), T(!new)>(f: S -> T, disk: Disk<S>, io: Io)
    ensures ReadDisk(f, SyncDirectory(disk, io)) == SyncDirectory(ReadDisk(f, disk), io)
  {
    assert ReadDisk(f, disk.(displaced := {})).displaced == {};
  }

  lemma WriteTempReads<S(!new), T(!new)>(f: S -> T, disk: Disk<S>, next: S, io: Io)
    ensures ReadDisk(f, WriteTemp(disk, next, io)) == WriteTemp(ReadDisk(f, disk), f(next), io)
  {
  }

  lemma CallsRead<S(!new), T(!new)>(f: S -> T, disk: Disk<S>, latch: bool, io: Io)
    ensures ReadDisk(f, SyncTemp(disk, io)) == SyncTemp(ReadDisk(f, disk), io)
    ensures ReadDisk(f, SyncState(disk, io)) == SyncState(ReadDisk(f, disk), io)
    ensures ReadDisk(f, SetLatch(disk, latch, io)) == SetLatch(ReadDisk(f, disk), latch, io)
    ensures ReadDisk(f, SyncLatch(disk, io)) == SyncLatch(ReadDisk(f, disk), io)
    ensures ReadDisk(f, disk).installed == ReadFile(f, disk.installed) && ReadDisk(f, disk).latch == disk.latch
  {
  }

  ghost predicate Reads<S(!new), T(!new)>(f: S -> T, c: Config<S>, io: Io, update: Option<S>) {
    ReadConfig(f, Advance(c, io, update)) == Advance(ReadConfig(f, c), io, ReadOption(f, update))
  }

  lemma EarlyStepsRead<S(!new), T(!new)>(f: S -> T, c: Config<S>, io: Io, update: Option<S>)
    requires c.phase.Entered? || c.phase.Healthy? || c.phase.Loaded? || c.phase.Updated?
    ensures Reads(f, c, io, update)
  {
  }

  lemma WritingStepsRead<S(!new), T(!new)>(f: S -> T, c: Config<S>, io: Io, update: Option<S>)
    requires c.phase.Ready? || c.phase.TempWritten? || c.phase.TempSynced?
          || c.phase.MarkWritten? || c.phase.MarkSynced? || c.phase.Marked?
    ensures Reads(f, c, io, update)
  {
    hide ReadDisk, WriteTemp, SyncTemp, Rename, SyncDirectory, SyncState, SetLatch, SyncLatch;
    RenameReads(f, c.disk, io);
    SyncDirectoryReads(f, c.disk, io);
    WriteTempReads(f, c.disk, c.phase.next, io);
    CallsRead(f, c.disk, true, io);
  }

  lemma SettlingStepsRead<S(!new), T(!new)>(f: S -> T, c: Config<S>, io: Io, update: Option<S>)
    requires Settling(c.phase)
    ensures Reads(f, c, io, update)
  {
    hide ReadDisk, WriteTemp, SyncTemp, Rename, SyncDirectory, SyncState, SetLatch, SyncLatch;
    SyncDirectoryReads(f, c.disk, io);
    CallsRead(f, c.disk, true, io);
    CallsRead(f, c.disk, false, io);
  }

  /** The protocol never looks into the state, so reading it commutes with every step. */
  lemma AdvanceReads<S(!new), T(!new)>(f: S -> T, c: Config<S>, io: Io, update: Option<S>)
    ensures Reads(f, c, io, update)
  {
    hide Reads;
    if Settling(c.phase) {
      SettlingStepsRead(f, c, io, update);
    } else if c.phase.Entered? || c.phase.Healthy? || c.phase.Loaded? || c.phase.Updated? {
      EarlyStepsRead(f, c, io, update);
    } else {
      WritingStepsRead(f, c, io, update);
    }
  }

  // ---------- A walk is a run ----------

  /** Past the point where the update function has run. */
  predicate Decided<S>(phase: Phase<S>) { !phase.Entered? && !phase.Healthy? && !phase.Loaded? }

  lemma DecidedStays<S>(c: Config<S>, io: Io, update: Option<S>)
    requires Decided(c.phase)
    ensures Decided(Advance(c, io, update).phase)
  {
  }

  /** A transaction calls its update function at most once, in its third step. */
  lemma {:induction false} UpdatesOnce<S>(configs: seq<Config<S>>, answers: seq<Answer<S>>, i: nat)
    requires Walk(configs, answers) && i < |configs| && configs[0].phase == Entered(Writing)
    ensures configs[i].phase.Loaded? ==> i == 2
    ensures i > 2 ==> Decided(configs[i].phase)
    ensures i == 1 ==> configs[i].phase.Healthy? || configs[i].phase.Finished?
    ensures i == 2 ==> configs[i].phase.Loaded? || configs[i].phase.Finished?
  {
    if i > 0 {
      UpdatesOnce(configs, answers, i - 1);
      assert configs[i - 1 + 1] == Advance(configs[i - 1], answers[i - 1].io, answers[i - 1].update);
      if Decided(configs[i - 1].phase) {
        DecidedStays(configs[i - 1], answers[i - 1].io, answers[i - 1].update);
      }
    }
  }

  /** The update function of the walk is `exec` on the job, as read through `f`. */
  ghost predicate Executes<J, S, T>(
    exec: (J, T) -> Option<T>, job: J, f: S -> T, configs: seq<Config<S>>, answers: seq<Answer<S>>) {
    |configs| > 2 && |answers| > 2 && configs[2].phase.Loaded? ==>
      ReadOption(f, answers[2].update) == exec(job, f(configs[2].phase.base))
  }

  /** The worlds that the process goes through while it walks. */
  ghost predicate Follows<J(!new), S(!new), T(!new)>(
    exec: (J, T) -> Option<T>, f: S -> T, configs: seq<Config<S>>, answers: seq<Answer<S>>,
    run: seq<World<J, T>>, steps: seq<Step<J, T>>)
  {
    && |run| == |configs| && |steps| == |answers|
    && IsRun(exec, run, steps)
    && (forall i :: 0 <= i < |steps| ==> steps[i] == Syscall(answers[i].io))
    && (forall i :: 0 <= i < |run| ==> run[i].holder.Some? && ConfigOf(run[i], run[i].holder.value) == ReadConfig(f, configs[i]))
  }

  lemma SyscallFollows<J(!new), S(!new), T(!new)>(
    exec: (J, T) -> Option<T>, f: S -> T, c: Config<S>, answer: Answer<S>, w: World<J, T>, task: Task<J>)
    requires w.holder.Some? && w.holder.value.task == task && ConfigOf(w, w.holder.value) == ReadConfig(f, c)
    requires c.phase.Loaded? ==> task.Write? && ReadOption(f, answer.update) == exec(task.job, f(c.phase.base))
    ensures var w' := AfterSyscall(exec, w, w.holder.value, answer.io);
            && Next(exec, w, Syscall(answer.io), w') && w'.holder.Some?
            && w'.holder.value.task == task && w'.holder.value.pid == w.holder.value.pid
            && ConfigOf(w', w'.holder.value) == ReadConfig(f, Advance(c, answer.io, answer.update))
  {
    AdvanceReads(f, c, answer.io, answer.update);
    UpdateOnlyWhenLoaded(ReadConfig(f, c), answer.io, ReadOption(f, answer.update), UpdateOf(exec, w.holder.value));
    hide Advance, ReadDisk;
  }

  lemma UpdateOnlyWhenLoaded<S>(c: Config<S>, io: Io, a: Option<S>, b: Option<S>)
    requires c.phase.Loaded? ==> a == b
    ensures Advance(c, io, a) == Advance(c, io, b)
  {
  }

  /** A reader or a recovery never runs an update function. */
  predicate NotWriting<S>(phase: Phase<S>) {
    match phase
    case Entered(kind) => kind != Writing
    case Inspected => true
    case StateSynced => true
    case Clearing(_) => true
    case Truncated(_) => true
    case ClearSynced(_) => true
    case Relatching => true
    case Finished(_) => true
    case _ => false
  }

  lemma {:induction false} NeverLoads<S>(configs: seq<Config<S>>, answers: seq<Answer<S>>, i: nat)
    requires Walk(configs, answers) && i < |configs| && NotWriting(configs[0].phase)
    ensures NotWriting(configs[i].phase)
  {
    if i > 0 {
      NeverLoads(configs, answers, i - 1);
      assert configs[i - 1 + 1] == Advance(configs[i - 1], answers[i - 1].io, answers[i - 1].update);
    }
  }

  /** Forward simulation: from any world in which the process has entered the lock on that
      disk, to write, to read or to recover, its walk is a run of system calls that ends in the
      world with the walk's end. */
  lemma {:induction false} WalkIsRun<J(!new), S(!new), T(!new)>(
    exec: (J, T) -> Option<T>, task: Task<J>, f: S -> T, configs: seq<Config<S>>, answers: seq<Answer<S>>,
    w: World<J, T>)
    returns (run: seq<World<J, T>>, steps: seq<Step<J, T>>)
    requires Walk(configs, answers) && configs[0].phase == Entered(KindOf(task))
    requires task.Write? ==> Executes(exec, task.job, f, configs, answers)
    requires w.holder.Some? && w.holder.value.task == task
    requires ConfigOf(w, w.holder.value) == ReadConfig(f, configs[0])
    ensures Follows(exec, f, configs, answers, run, steps) && run[0] == w
    ensures run[|run| - 1].holder.value.task == task
    decreases |answers|
  {
    if answers == [] {
      return [w], [];
    }
    var n := |answers| - 1;
    hide Advance, ReadConfig, Follows;
    run, steps := WalkIsRun(exec, task, f, configs[..n + 1], answers[..n], w);
    if task.Write? { UpdatesOnce(configs, answers, n); } else { NeverLoads(configs, answers, n); }
    FollowsEnd(exec, f, configs[..n + 1], answers[..n], run, steps);
    assert configs[n + 1] == Advance(configs[n], answers[n].io, answers[n].update);
    SyscallFollows(exec, f, configs[n], answers[n], run[n], task);
    var next := AfterSyscall(exec, run[n], run[n].holder.value, answers[n].io);
    hide AfterSyscall, Next, Walk, ConfigOf;
    assert configs == configs[..n + 1] + [configs[n + 1]] && answers == answers[..n] + [answers[n]];
    FollowsMore(exec, f, configs[..n + 1], answers[..n], run, steps, configs[n + 1], answers[n], next);
    run, steps := run + [next], steps + [Syscall(answers[n].io)];
  }

  lemma FollowsEnd<J(!new), S(!new), T(!new)>(
    exec: (J, T) -> Option<T>, f: S -> T, configs: seq<Config<S>>, answers: seq<Answer<S>>,
    run: seq<World<J, T>>, steps: seq<Step<J, T>>)
    requires Follows(exec, f, configs, answers, run, steps) && configs != []
    ensures |run| == |configs| && |steps| == |answers| && run[|run| - 1].holder.Some?
    ensures ConfigOf(run[|run| - 1], run[|run| - 1].holder.value) == ReadConfig(f, configs[|configs| - 1])
  {
  }

  lemma FollowsMore<J(!new), S(!new), T(!new)>(
    exec: (J, T) -> Option<T>, f: S -> T, configs: seq<Config<S>>, answers: seq<Answer<S>>,
    run: seq<World<J, T>>, steps: seq<Step<J, T>>, c: Config<S>, answer: Answer<S>, next: World<J, T>)
    requires Follows(exec, f, configs, answers, run, steps) && run != []
    requires Next(exec, run[|run| - 1], Syscall(answer.io), next)
    requires next.holder.Some? && ConfigOf(next, next.holder.value) == ReadConfig(f, c)
    ensures Follows(exec, f, configs + [c], answers + [answer], run + [next], steps + [Syscall(answer.io)])
  {
    hide Next, ConfigOf, ReadConfig;
  }

  // ---------- What is on the disk ----------

  predicate ContentsAre<S>(good: S -> bool, contents: Contents<S>) { contents.Intact? ==> good(contents.state) }

  ghost predicate DiskIs<S(!new)>(good: S -> bool, disk: Disk<S>) {
    && ContentsAre(good, disk.installed.contents)
    && (forall file :: file in disk.displaced ==> ContentsAre(good, file.contents))
    && (disk.temp.Some? ==> ContentsAre(good, disk.temp.value.contents))
  }

  ghost predicate CarriesOnly<S(!new)>(good: S -> bool, phase: Phase<S>) {
    (phase.Updated? || phase.Ready?) ==> good(phase.next)
  }

  lemma CallsKeepGood<S(!new)>(good: S -> bool, disk: Disk<S>, latch: bool, io: Io)
    requires DiskIs(good, disk)
    ensures DiskIs(good, SyncTemp(disk, io)) && DiskIs(good, Rename(disk, io)) && DiskIs(good, SyncDirectory(disk, io))
    ensures DiskIs(good, SyncState(disk, io)) && DiskIs(good, SetLatch(disk, latch, io))
    ensures DiskIs(good, SyncLatch(disk, io))
    ensures forall next :: good(next) ==> DiskIs(good, WriteTemp(disk, next, io))
  {
  }

  lemma AdvanceKeepsGood<S(!new)>(good: S -> bool, c: Config<S>, io: Io, update: Option<S>)
    requires DiskIs(good, c.disk) && CarriesOnly(good, c.phase)
    requires c.phase.Loaded? && update.Some? ==> good(update.value)
    ensures DiskIs(good, Advance(c, io, update).disk) && CarriesOnly(good, Advance(c, io, update).phase)
  {
    hide DiskIs, WriteTemp, SyncTemp, Rename, SyncDirectory, SyncState, SetLatch, SyncLatch, ReadState;
    CallsKeepGood(good, c.disk, true, io);
    CallsKeepGood(good, c.disk, false, io);
  }

  /** If the update returns only good states, then whatever fails and wherever the process
      stops, every file that can be found afterwards holds a good state. */
  lemma {:induction false} WalkKeepsGood<S(!new)>(
    good: S -> bool, configs: seq<Config<S>>, answers: seq<Answer<S>>, i: nat)
    requires Walk(configs, answers) && i < |configs| && configs[0].phase == Entered(Writing)
    requires DiskIs(good, configs[0].disk)
    requires (|configs| > 2 && |answers| > 2 && configs[2].phase.Loaded? && answers[2].update.Some?) ==>
      good(answers[2].update.value)
    ensures DiskIs(good, configs[i].disk) && CarriesOnly(good, configs[i].phase)
  {
    hide Advance, DiskIs;
    if i > 0 {
      WalkKeepsGood(good, configs, answers, i - 1);
      UpdatesOnce(configs, answers, i - 1);
      AdvanceKeepsGood(good, configs[i - 1], answers[i - 1].io, answers[i - 1].update);
      assert configs[i - 1 + 1] == Advance(configs[i - 1], answers[i - 1].io, answers[i - 1].update);
    }
  }

  // ---------- What a transaction leaves installed ----------

  /** Past the update, the phase carries its result. */
  ghost predicate Carries<S>(phase: Phase<S>, update: Option<S>) {
    match phase
    case Updated(next) => update == Some(next)
    case Ready(next) => update == Some(next)
    case TempWritten(next) => update == Some(next)
    case TempSynced(next) => update == Some(next)
    case MarkWritten(next) => update == Some(next)
    case MarkSynced(next) => update == Some(next)
    case Marked(next) => update == Some(next)
    case _ => true
  }

  lemma CarriesOn<S>(c: Config<S>, io: Io, update: Option<S>, result: Option<S>)
    requires PhaseInv(c) && Carries(c.phase, result) && (c.phase.Loaded? ==> update == result)
    ensures Carries(Advance(c, io, update).phase, result)
    ensures var c' := Advance(c, io, update);
            || c'.disk.installed.contents == c.disk.installed.contents
            || (result.Some? && c'.disk.installed.contents == Intact(result.value))
  {
    AdvanceFiles(c, io, update);
  }

  /** The result of a walk's update function, if it got there. */
  function ResultOf<S>(configs: seq<Config<S>>, answers: seq<Answer<S>>): Option<S> {
    if |configs| > 2 && |answers| > 2 && configs[2].phase.Loaded? then answers[2].update else None
  }

  /** Up to the call of the update function the disk is only read. */
  lemma {:induction false} LooksFirst<S>(configs: seq<Config<S>>, answers: seq<Answer<S>>, i: nat)
    requires Walk(configs, answers) && i < |configs| && i <= 2 && configs[0].phase == Entered(Writing)
    ensures configs[i].disk == configs[0].disk
  {
    if i > 0 {
      LooksFirst(configs, answers, i - 1);
      UpdatesOnce(configs, answers, i - 1);
      assert configs[i - 1 + 1] == Advance(configs[i - 1], answers[i - 1].io, answers[i - 1].update);
    }
  }

  /** Wherever a transaction stops, the state file holds what it held before, or exactly the
      result of the update function. */
  lemma {:induction false} WalkInstalls<S>(configs: seq<Config<S>>, answers: seq<Answer<S>>, i: nat)
    requires Walk(configs, answers) && i < |configs| && configs[0].phase == Entered(Writing)
    requires Guarded(configs[0].disk)
    ensures Carries(configs[i].phase, ResultOf(configs, answers))
    ensures || configs[i].disk.installed.contents == configs[0].disk.installed.contents
            || (ResultOf(configs, answers).Some? && configs[i].disk.installed.contents == Intact(ResultOf(configs, answers).value))
  {
    hide Advance, Guarded, PhaseInv;
    if i > 0 {
      WalkInstalls(configs, answers, i - 1);
      FreshPhase(configs[0]);
      WalkKeeps(configs, answers, i - 1);
      UpdatesOnce(configs, answers, i - 1);
      CarriesOn(configs[i - 1], answers[i - 1].io, answers[i - 1].update, ResultOf(configs, answers));
      assert configs[i - 1 + 1] == Advance(configs[i - 1], answers[i - 1].io, answers[i - 1].update);
    }
  }

  lemma FreshPhase<S>(c: Config<S>)
    requires c.phase.Entered?
    ensures PhaseInv(c)
  {
  }
}
