/** The commit protocol of state_store.py as a state machine over single system calls, any of
    which may fail, with any number of processes, process kills and power losses.
    It is generic in the stored state `S` and in the jobs `J` that rewrite it. */
module CommitProtocol {
  import opened Wrappers

  // ---------- The disk ----------

  datatype Contents<S> = Torn | Intact(state: S)

  datatype File<S> = File(contents: Contents<S>, synced: bool)

  datatype Disk<S(==)> = Disk(
    installed: File<S>,        // the file the state path names
    displaced: set<File<S>>,   // files it may name again after a power loss
    temp: Option<File<S>>,     // the temporary file being prepared
    latch: bool,               // the lock file is not empty
    latchOutcomes: set<bool>,  // what a power loss may leave of that
    lockEntryDurable: bool)    // the lock file itself survives a power loss

  /** The result of a system call. A failed one may still have taken visible effect. */
  datatype Io = Done | Failed(effective: bool)

  function WriteTemp<S(==)>(disk: Disk<S>, next: S, io: Io): Disk<S> {
    disk.(temp := Some(File(if io.Done? then Intact(next) else Torn, false)))
  }

  function SyncTemp<S(==)>(disk: Disk<S>, io: Io): Disk<S> {
    if io.Done? && disk.temp.Some? then disk.(temp := Some(disk.temp.value.(synced := true))) else disk
  }

  /** `os.replace`: until the directory is synced either file may survive a power loss. */
  function Rename<S(==)>(disk: Disk<S>, io: Io): Disk<S> {
    if io.Done? && disk.temp.Some?
    then disk.(installed := disk.temp.value, displaced := disk.displaced + {disk.installed}, temp := None)
    else disk
  }

  function SyncDirectory<S(==)>(disk: Disk<S>, io: Io): Disk<S> {
    if io.Done? then disk.(displaced := {}, lockEntryDurable := true) else disk
  }

  function SyncState<S(==)>(disk: Disk<S>, io: Io): Disk<S> {
    if io.Done? then disk.(installed := disk.installed.(synced := true)) else disk
  }

  function SetLatch<S(==)>(disk: Disk<S>, latch: bool, io: Io): Disk<S> {
    if io.Done? || io.effective then disk.(latch := latch, latchOutcomes := disk.latchOutcomes + {latch}) else disk
  }

  function SyncLatch<S(==)>(disk: Disk<S>, io: Io): Disk<S> {
    if io.Done? then disk.(latchOutcomes := {disk.latch}) else disk
  }

  // ---------- One process inside the lock ----------

  datatype Kind = Writing | Reading | Recovering

  /** Why the latch is being cleared. */
  datatype Reason<S> = Commit(state: S) | Unwind | Recovery

  datatype End<S> = Committed(state: S) | Observed(state: S) | Recovered | Blocked | Raised

  /** Where the code stands; each phase is named after what has been completed. */
  datatype Phase<S> =
    | Entered(kind: Kind)
    | Healthy
    | Loaded(base: S)
    | Updated(next: S)
    | Ready(next: S)
    | TempWritten(next: S)
    | TempSynced(next: S)
    | MarkWritten(next: S)
    | MarkSynced(next: S)
    | Marked(next: S)
    | Renamed(next: S)
    | Clearing(reason: Reason<S>)
    | Truncated(reason: Reason<S>)
    | ClearSynced(reason: Reason<S>)
    | Relatching
    | Inspected
    | StateSynced
    | Finished(end: End<S>)

  /** What one process sees and changes; `latched` is its own in-memory latch. */
  datatype Config<S(==)> = Config(disk: Disk<S>, latched: bool, phase: Phase<S>)

  function Ended<S(==)>(c: Config<S>, end: End<S>): Config<S> { c.(phase := Finished(end)) }

  function CheckHealth<S(==)>(c: Config<S>, io: Io, passed: Phase<S>): Config<S> {
    if c.latched then Ended(c, Blocked)
    else if !io.Done? then Ended(c, Raised)
    else if c.disk.latch then Ended(c, Blocked)
    else c.(phase := passed)
  }

  function ReadState<S(==)>(c: Config<S>, io: Io): Option<S> {
    if io.Done? && c.disk.installed.contents.Intact? then Some(c.disk.installed.contents.state) else None
  }

  function EndOf<S(==)>(reason: Reason<S>): End<S> {
    match reason case Commit(state) => Committed(state) case Unwind => Raised case Recovery => Recovered
  }

  /** The next step of the code after the call it makes in this phase returned `io`;
      `update` is what the caller's update function returns, None when it raises. */
  function Advance<S(==)>(c: Config<S>, io: Io, update: Option<S>): Config<S> {
    match c.phase
    case Entered(Writing) => CheckHealth(c, io, Healthy)
    case Entered(Reading) =>
      (match ReadState(c, io) case Some(state) => Ended(c, Observed(state)) case None => Ended(c, Raised))
    case Entered(Recovering) =>
      (match ReadState(c, io) case Some(_) => c.(phase := Inspected) case None => Ended(c, Raised))
    case Healthy =>
      (match ReadState(c, io) case Some(state) => c.(phase := Loaded(state)) case None => Ended(c, Raised))
    case Loaded(_) =>
      (match update case Some(next) => c.(phase := Updated(next)) case None => Ended(c, Raised))
    case Updated(next) => CheckHealth(c, io, Ready(next))
    case Ready(next) =>
      c.(disk := WriteTemp(c.disk, next, io), phase := if io.Done? then TempWritten(next) else Finished(Raised))
    case TempWritten(next) =>
      c.(disk := SyncTemp(c.disk, io), phase := if io.Done? then TempSynced(next) else Finished(Raised))
    case TempSynced(next) =>
      Config(SetLatch(c.disk, true, io), true, if io.Done? then MarkWritten(next) else Relatching)
    case MarkWritten(next) =>
      c.(disk := SyncLatch(c.disk, io), phase := if io.Done? then MarkSynced(next) else Relatching)
    case MarkSynced(next) =>
      c.(disk := SyncDirectory(c.disk, io), phase := if io.Done? then Marked(next) else Relatching)
    case Marked(next) =>
      c.(disk := Rename(c.disk, io), phase := if io.Done? then Renamed(next) else Clearing(Unwind))
    case Renamed(next) =>
      c.(disk := SyncDirectory(c.disk, io), phase := if io.Done? then Clearing(Commit(next)) else Finished(Raised))
    case Clearing(reason) =>
      Config(SetLatch(c.disk, false, io), true, if io.Done? then Truncated(reason) else Relatching)
    case Truncated(reason) =>
      c.(disk := SyncLatch(c.disk, io), phase := if io.Done? then ClearSynced(reason) else Relatching)
    case ClearSynced(reason) =>
      Config(SyncDirectory(c.disk, io), c.latched && !io.Done?, if io.Done? then Finished(EndOf(reason)) else Relatching)
    case Relatching => Ended(c.(disk := SetLatch(c.disk, true, io)), Raised)
    case Inspected =>
      c.(disk := SyncState(c.disk, io), phase := if io.Done? then StateSynced else Finished(Raised))
    case StateSynced =>
      c.(disk := SyncDirectory(c.disk, io), phase := if io.Done? then Clearing(Recovery) else Finished(Raised))
    case Finished(_) => c
  }

  // ---------- The invariant of one process ----------

  ghost predicate Durable<S>(file: File<S>) { file.contents.Intact? && file.synced }

  /** Nothing but the installed file can be found after a power loss. */
  ghost predicate Settled<S>(disk: Disk<S>) { disk.displaced == {} }

  /** The latch is visible and no power loss can take it away. */
  ghost predicate LatchDurable<S>(disk: Disk<S>) {
    disk.latch && disk.latchOutcomes == {true} && disk.lockEntryDurable
  }

  /** No file is torn, and a state that could still be lost is guarded by a durable latch. */
  ghost predicate Guarded<S>(disk: Disk<S>) {
    && Durable(disk.installed)
    && (forall f :: f in disk.displaced ==> Durable(f))
    && disk.latch in disk.latchOutcomes
    && (Settled(disk) || LatchDurable(disk))
  }

  ghost predicate TempHolds<S>(disk: Disk<S>, next: S, synced: bool) {
    disk.temp == Some(File(Intact(next), synced))
  }

  ghost predicate PhaseInv<S>(c: Config<S>) {
    match c.phase
    case Entered(_) => true
    case Healthy => Settled(c.disk)
    case Loaded(base) => Settled(c.disk) && c.disk.installed.contents == Intact(base)
    case Updated(_) => Settled(c.disk)
    case Ready(_) => Settled(c.disk)
    case TempWritten(next) => Settled(c.disk) && TempHolds(c.disk, next, false)
    case TempSynced(next) => Settled(c.disk) && TempHolds(c.disk, next, true)
    case MarkWritten(next) => Settled(c.disk) && TempHolds(c.disk, next, true) && c.latched && c.disk.latch
    case MarkSynced(next) =>
      Settled(c.disk) && TempHolds(c.disk, next, true) && c.latched && c.disk.latch && c.disk.latchOutcomes == {true}
    case Marked(next) => Settled(c.disk) && TempHolds(c.disk, next, true) && c.latched && LatchDurable(c.disk)
    case Renamed(next) => c.latched && LatchDurable(c.disk) && c.disk.installed == File(Intact(next), true)
    case Clearing(reason) => Settled(c.disk) && ReasonInv(c.disk, reason)
    case Truncated(reason) => Settled(c.disk) && ReasonInv(c.disk, reason) && c.latched && !c.disk.latch
    case ClearSynced(reason) =>
      Settled(c.disk) && ReasonInv(c.disk, reason) && c.latched && !c.disk.latch && c.disk.latchOutcomes == {false}
    case Relatching => Settled(c.disk) && c.latched
    case Inspected => true
    case StateSynced => true
    case Finished(end) => EndInv(c, end)
  }

  ghost predicate ReasonInv<S>(disk: Disk<S>, reason: Reason<S>) {
    reason.Commit? ==> disk.installed == File(Intact(reason.state), true)
  }

  /** What a normal return promises. */
  ghost predicate EndInv<S>(c: Config<S>, end: End<S>) {
    match end
    case Committed(state) =>
      && Settled(c.disk) && c.disk.installed == File(Intact(state), true)
      && !c.disk.latch && c.disk.latchOutcomes == {false} && !c.latched
    case Recovered => Settled(c.disk) && !c.disk.latch && c.disk.latchOutcomes == {false} && !c.latched
    case Observed(state) => c.disk.installed.contents == Intact(state)
    case Blocked => c.latched || c.disk.latch
    case Raised => true
  }

  lemma AdvanceKeepsGuarded<S>(c: Config<S>, io: Io, update: Option<S>)
    requires Guarded(c.disk) && PhaseInv(c)
    ensures Guarded(Advance(c, io, update).disk)
  {
  }

  /** The phases from the rename on, and recovery. */
  ghost predicate Settling<S>(phase: Phase<S>) {
    || phase.Renamed? || phase.Clearing? || phase.Truncated? || phase.ClearSynced? || phase.Relatching?
    || phase.Inspected? || phase.StateSynced? || phase.Finished?
  }

  lemma PreparingKeeps<S>(c: Config<S>, io: Io, update: Option<S>)
    requires Guarded(c.disk) && PhaseInv(c) && !Settling(c.phase)
    ensures PhaseInv(Advance(c, io, update))
  {
  }

  lemma SettlingKeeps<S>(c: Config<S>, io: Io, update: Option<S>)
    requires Guarded(c.disk) && PhaseInv(c) && Settling(c.phase)
    ensures PhaseInv(Advance(c, io, update))
  {
  }

  /** Every system call, whether it succeeds, fails or half-succeeds, keeps the invariant. */
  lemma AdvanceKeeps<S>(c: Config<S>, io: Io, update: Option<S>)
    requires Guarded(c.disk) && PhaseInv(c)
    ensures Guarded(Advance(c, io, update).disk) && PhaseInv(Advance(c, io, update))
  {
    AdvanceKeepsGuarded(c, io, update);
    hide Guarded, PhaseInv, Advance;
    if Settling(c.phase) {
      SettlingKeeps(c, io, update);
    } else {
      PreparingKeeps(c, io, update);
    }
  }

  // ---------- Several steps ----------

  /** What one step of the code got back: from the system, or from the update function. */
  datatype Answer<S> = Answer(io: Io, update: Option<S>)

  /** `configs` are all the states one process goes through, given the answers it gets. */
  ghost predicate Walk<S>(configs: seq<Config<S>>, answers: seq<Answer<S>>) {
    && |configs| == |answers| + 1
    && forall i {:trigger answers[i]} :: 0 <= i < |answers| ==>
         configs[i + 1] == Advance(configs[i], answers[i].io, answers[i].update)
  }

  lemma WalkOne<S>(configs: seq<Config<S>>, answers: seq<Answer<S>>, answer: Answer<S>)
    requires Walk(configs, answers)
    ensures Walk(configs + [Advance(configs[|answers|], answer.io, answer.update)], answers + [answer])
  {
    hide Advance;
  }

  lemma {:induction false} WalkKeeps<S>(configs: seq<Config<S>>, answers: seq<Answer<S>>, i: nat)
    requires Walk(configs, answers) && i < |configs|
    requires Guarded(configs[0].disk) && PhaseInv(configs[0])
    ensures Guarded(configs[i].disk) && PhaseInv(configs[i])
  {
    hide Advance, Guarded, PhaseInv;
    if i > 0 {
      WalkKeeps(configs, answers, i - 1);
      AdvanceKeeps(configs[i - 1], answers[i - 1].io, answers[i - 1].update);
    }
  }

  ghost predicate AllDone<S>(answers: seq<Answer<S>>, next: S) {
    forall i :: 0 <= i < |answers| ==> answers[i] == Answer(Done, Some(next))
  }

  lemma HealthyWriteMarks<S>(configs: seq<Config<S>>, answers: seq<Answer<S>>, next: S)
    requires Walk(configs, answers) && |answers| >= 9 && AllDone(answers, next)
    requires configs[0].phase == Entered(Writing) && !configs[0].latched && !configs[0].disk.latch
    requires configs[0].disk.installed.contents.Intact?
    ensures configs[9].phase == Marked(next) && configs[9].disk.temp == Some(File(Intact(next), true))
  {
    StepDone(configs, answers, next, 0);
    StepDone(configs, answers, next, 1);
    StepDone(configs, answers, next, 2);
    StepDone(configs, answers, next, 3);
    assert configs[4].phase == Ready(next);
    StepDone(configs, answers, next, 4);
    StepDone(configs, answers, next, 5);
    assert configs[6].phase == TempSynced(next);
    StepDone(configs, answers, next, 6);
    StepDone(configs, answers, next, 7);
    StepDone(configs, answers, next, 8);
  }

  lemma StepDone<S>(configs: seq<Config<S>>, answers: seq<Answer<S>>, next: S, i: nat)
    requires Walk(configs, answers) && AllDone(answers, next) && i < |answers|
    ensures configs[i + 1] == Advance(configs[i], Done, Some(next))
  {
    assert answers[i] == Answer(Done, Some(next));
  }

  /** When no latch stands and no call fails, fourteen steps commit what the update returned. */
  lemma HealthyWriteCommits<S>(configs: seq<Config<S>>, answers: seq<Answer<S>>, next: S)
    requires Walk(configs, answers) && |answers| >= 14 && AllDone(answers, next)
    requires configs[0].phase == Entered(Writing) && !configs[0].latched && !configs[0].disk.latch
    requires configs[0].disk.installed.contents.Intact?
    ensures configs[14].phase == Finished(Committed(next)) && configs[14].disk.installed == File(Intact(next), true)
    ensures !configs[14].latched && !configs[14].disk.latch && Settled(configs[14].disk)
  {
    HealthyWriteMarks(configs, answers, next);
    StepDone(configs, answers, next, 9);
    StepDone(configs, answers, next, 10);
    assert configs[11].phase == Clearing(Commit(next));
    StepDone(configs, answers, next, 11);
    StepDone(configs, answers, next, 12);
    StepDone(configs, answers, next, 13);
  }

  // ---------- All processes, kills and power losses ----------

  datatype Task<J> = Write(job: J) | Read | Recover

  function KindOf<J>(task: Task<J>): Kind {
    match task case Write(_) => Writing case Read => Reading case Recover => Recovering
  }

  /** The process inside the exclusive lock. */
  datatype Holder<J, S> = Holder(pid: nat, task: Task<J>, phase: Phase<S>)

  /** `latched` are the processes with a set in-memory latch. `log` is a history of the jobs
      whose result the state path names, in the order of their renames. */
  datatype World<J, S(==)> = World(disk: Disk<S>, latched: set<nat>, holder: Option<Holder<J, S>>, log: seq<J>)

  datatype Step<J, S> =
    | Acquire(pid: nat, task: Task<J>)
    | Syscall(io: Io)
    | Release
    | Kill(pid: nat)
    | PowerLoss(file: File<S>, torn: bool, latch: bool, lockLost: bool)

  function ConfigOf<J, S(==)>(w: World<J, S>, h: Holder<J, S>): Config<S> {
    Config(w.disk, h.pid in w.latched, h.phase)
  }

  /** The update function of a transaction runs on the state that was just loaded. */
  function UpdateOf<J, S>(exec: (J, S) -> Option<S>, h: Holder<J, S>): Option<S> {
    if h.task.Write? && h.phase.Loaded? then exec(h.task.job, h.phase.base) else None
  }

  function AfterSyscall<J, S(==)>(exec: (J, S) -> Option<S>, w: World<J, S>, h: Holder<J, S>, io: Io): World<J, S> {
    var c := Advance(ConfigOf(w, h), io, UpdateOf(exec, h));
    World(c.disk,
          if c.latched then w.latched + {h.pid} else w.latched - {h.pid},
          Some(h.(phase := c.phase)),
          if h.phase.Marked? && c.phase.Renamed? && h.task.Write? then w.log + [h.task.job] else w.log)
  }

  function AfterPowerLoss<J, S(==)>(
    w: World<J, S>, file: File<S>, torn: bool, latch: bool, lockLost: bool): World<J, S> {
    var contents := if !file.synced && torn then Torn else file.contents;
    var left := latch && !lockLost;
    World(Disk(File(contents, true), {}, None, left, {left}, w.disk.lockEntryDurable),
          {}, None,
          if file == w.disk.installed || w.log == [] then w.log else w.log[..|w.log| - 1])
  }

  ghost predicate Next<J, S>(exec: (J, S) -> Option<S>, w: World<J, S>, step: Step<J, S>, w': World<J, S>) {
    match step
    case Acquire(pid, task) => w.holder.None? && w' == w.(holder := Some(Holder(pid, task, Entered(KindOf(task)))))
    case Syscall(io) => w.holder.Some? && w' == AfterSyscall(exec, w, w.holder.value, io)
    case Release => w.holder.Some? && w.holder.value.phase.Finished? && w' == w.(holder := None)
    case Kill(pid) =>
      w' == w.(latched := w.latched - {pid},
               holder := if w.holder.Some? && w.holder.value.pid == pid then None else w.holder)
    case PowerLoss(file, torn, latch, lockLost) =>
      && (file == w.disk.installed || file in w.disk.displaced)
      && latch in w.disk.latchOutcomes && (lockLost ==> !w.disk.lockEntryDurable)
      && w' == AfterPowerLoss(w, file, torn, latch, lockLost)
  }

  // ---------- The global invariant ----------

  /** Running jobs one after the other; None when one of them raises. */
  function Replay<J, S>(exec: (J, S) -> Option<S>, init: S, log: seq<J>): Option<S> {
    if log == [] then Some(init) else
      match Replay(exec, init, log[..|log| - 1])
      case Some(state) => exec(log[|log| - 1], state)
      case None => None
  }

  /** The jobs that no power loss can undo any more. */
  function DurableLog<J, S(==)>(w: World<J, S>): seq<J> {
    if w.disk.displaced == {} || w.log == [] then w.log else w.log[..|w.log| - 1]
  }

  ghost predicate Prepared<J, S>(exec: (J, S) -> Option<S>, w: World<J, S>, h: Holder<J, S>, next: S) {
    && h.task.Write? && w.disk.installed.contents.Intact?
    && exec(h.task.job, w.disk.installed.contents.state) == Some(next)
  }

  ghost predicate HolderInv<J, S>(exec: (J, S) -> Option<S>, w: World<J, S>, h: Holder<J, S>) {
    match h.phase
    case Entered(kind) => kind == KindOf(h.task)
    case Healthy => h.task.Write?
    case Loaded(_) => h.task.Write?
    case Updated(next) => Prepared(exec, w, h, next)
    case Ready(next) => Prepared(exec, w, h, next)
    case TempWritten(next) => Prepared(exec, w, h, next)
    case TempSynced(next) => Prepared(exec, w, h, next)
    case MarkWritten(next) => Prepared(exec, w, h, next)
    case MarkSynced(next) => Prepared(exec, w, h, next)
    case Marked(next) => Prepared(exec, w, h, next)
    case Renamed(_) => Logged(w, h)
    case Clearing(reason) => reason.Commit? ==> Logged(w, h)
    case Truncated(reason) => reason.Commit? ==> Logged(w, h)
    case ClearSynced(reason) => reason.Commit? ==> Logged(w, h)
    case Finished(end) => end.Committed? ==> Logged(w, h)
    case _ => true
  }

  ghost predicate Logged<J, S>(w: World<J, S>, h: Holder<J, S>) {
    h.task.Write? && w.log != [] && w.log[|w.log| - 1] == h.task.job
  }

  ghost predicate LogInv<J, S>(exec: (J, S) -> Option<S>, init: S, w: World<J, S>) {
    && w.disk.installed.contents.Intact?
    && Replay(exec, init, w.log) == Some(w.disk.installed.contents.state)
    && (w.disk.displaced != {} ==>
          && w.log != []
          && forall f :: f in w.disk.displaced ==>
               f.contents.Intact? && Replay(exec, init, DurableLog(w)) == Some(f.contents.state))
  }

  ghost predicate Inv<J, S>(exec: (J, S) -> Option<S>, init: S, w: World<J, S>) {
    && Guarded(w.disk)
    && LogInv(exec, init, w)
    && (w.holder.Some? ==> PhaseInv(ConfigOf(w, w.holder.value)) && HolderInv(exec, w, w.holder.value))
  }

  /** A freshly started machine whose state file holds `init`. */
  ghost predicate Initial<J, S>(init: S, w: World<J, S>) {
    w.disk.installed == File(Intact(init), true) && w.disk.displaced == {} && w.disk.temp == None
    && w.disk.latchOutcomes == {w.disk.latch} && w.latched == {} && w.holder == None && w.log == []
  }

  lemma InitialInv<J, S>(exec: (J, S) -> Option<S>, init: S, w: World<J, S>)
    requires Initial(init, w)
    ensures Inv(exec, init, w)
  {
  }

  // ---------- Every step keeps it ----------

  lemma PreparingKeepsHolder<J, S>(exec: (J, S) -> Option<S>, w: World<J, S>, h: Holder<J, S>, io: Io)
    requires PhaseInv(ConfigOf(w, h)) && HolderInv(exec, w, h) && !Settling(h.phase)
    ensures HolderInv(exec, AfterSyscall(exec, w, h, io), AfterSyscall(exec, w, h, io).holder.value)
  {
  }

  lemma SettlingKeepsHolder<J, S>(exec: (J, S) -> Option<S>, w: World<J, S>, h: Holder<J, S>, io: Io)
    requires HolderInv(exec, w, h) && Settling(h.phase)
    ensures HolderInv(exec, AfterSyscall(exec, w, h, io), AfterSyscall(exec, w, h, io).holder.value)
  {
    hide PhaseInv, SetLatch, SyncLatch, SyncDirectory, SyncState;
  }

  lemma SyscallKeepsHolder<J, S>(exec: (J, S) -> Option<S>, init: S, w: World<J, S>, io: Io)
    requires Inv(exec, init, w) && w.holder.Some?
    ensures var w' := AfterSyscall(exec, w, w.holder.value, io);
            HolderInv(exec, w', w'.holder.value)
  {
    var h := w.holder.value;
    hide LogInv, Guarded, PhaseInv, HolderInv, Advance;
    if Settling(h.phase) {
      SettlingKeepsHolder(exec, w, h, io);
    } else {
      PreparingKeepsHolder(exec, w, h, io);
    }
  }

  /** Only the rename replaces the installed file; everything else leaves its contents and
      at most confirms it. */
  lemma AdvanceFiles<S>(c: Config<S>, io: Io, update: Option<S>)
    requires PhaseInv(c)
    ensures var c' := Advance(c, io, update);
            if c.phase.Marked? && io.Done? then
              && c'.phase.Renamed? && Settled(c.disk) && c'.disk.displaced == {c.disk.installed}
              && c'.disk.installed == File(Intact(c.phase.next), true)
            else
              && !(c.phase.Marked? && c'.phase.Renamed?)
              && c'.disk.installed.contents == c.disk.installed.contents
              && (c'.disk.displaced == c.disk.displaced || c'.disk.displaced == {})
  {
  }

  lemma SyscallKeepsLog<J, S>(exec: (J, S) -> Option<S>, init: S, w: World<J, S>, io: Io)
    requires Inv(exec, init, w) && w.holder.Some?
    ensures LogInv(exec, init, AfterSyscall(exec, w, w.holder.value, io))
  {
    hide Advance, PhaseInv, Guarded, LogInv, Replay;
    var h := w.holder.value;
    AdvanceFiles(ConfigOf(w, h), io, UpdateOf(exec, h));
    if h.phase.Marked? && io.Done? {
      RenameKeepsLog(exec, init, w, AfterSyscall(exec, w, h, io), h.task.job, h.phase.next);
    } else {
      SameFilesKeepLog(exec, init, w, AfterSyscall(exec, w, h, io));
    }
  }

  lemma RenameKeepsLog<J, S>(exec: (J, S) -> Option<S>, init: S, w: World<J, S>, w': World<J, S>, job: J, next: S)
    requires LogInv(exec, init, w) && exec(job, w.disk.installed.contents.state) == Some(next)
    requires w'.log == w.log + [job] && w'.disk.installed == File(Intact(next), true)
    requires w'.disk.displaced == {w.disk.installed}
    ensures LogInv(exec, init, w')
  {
    hide Replay;
    ReplayOneMore(exec, init, w.log, job);
  }

  lemma SameFilesKeepLog<J, S>(exec: (J, S) -> Option<S>, init: S, w: World<J, S>, w': World<J, S>)
    requires LogInv(exec, init, w) && w'.log == w.log
    requires w'.disk.installed.contents == w.disk.installed.contents
    requires w'.disk.displaced == w.disk.displaced || w'.disk.displaced == {}
    ensures LogInv(exec, init, w')
  {
    hide Replay;
  }

  lemma ReplayOneMore<J, S>(exec: (J, S) -> Option<S>, init: S, log: seq<J>, job: J)
    ensures (log + [job])[..|log|] == log
    ensures Replay(exec, init, log + [job]) ==
      match Replay(exec, init, log) case Some(state) => exec(job, state) case None => None
  {
    assert (log + [job])[..|log|] == log;
  }

  lemma PowerLossKeeps<J, S>(
    exec: (J, S) -> Option<S>, init: S, w: World<J, S>, file: File<S>, torn: bool, latch: bool, lockLost: bool)
    requires Guarded(w.disk) && LogInv(exec, init, w)
    requires file == w.disk.installed || file in w.disk.displaced
    requires latch in w.disk.latchOutcomes && (lockLost ==> !w.disk.lockEntryDurable)
    ensures Inv(exec, init, AfterPowerLoss(w, file, torn, latch, lockLost))
  {
    hide Replay;
    var w' := AfterPowerLoss(w, file, torn, latch, lockLost);
    assert Durable(file);
    assert Guarded(w'.disk);
  }

  lemma LockingKeeps<J, S>(
    exec: (J, S) -> Option<S>, init: S, w: World<J, S>, step: Step<J, S>, w': World<J, S>)
    requires Inv(exec, init, w) && Next(exec, w, step, w') && (step.Acquire? || step.Release? || step.Kill?)
    ensures Inv(exec, init, w')
  {
    hide Replay, Guarded;
  }

  lemma StepKeeps<J, S>(exec: (J, S) -> Option<S>, init: S, w: World<J, S>, step: Step<J, S>, w': World<J, S>)
    requires Inv(exec, init, w) && Next(exec, w, step, w')
    ensures Inv(exec, init, w')
  {
    match step
    case Syscall(io) =>
      AdvanceKeeps(ConfigOf(w, w.holder.value), io, UpdateOf(exec, w.holder.value));
      SyscallKeepsHolder(exec, init, w, io);
      SyscallKeepsLog(exec, init, w, io);
      hide Advance, Guarded, PhaseInv, HolderInv, LogInv;
    case PowerLoss(file, torn, latch, lockLost) =>
      PowerLossKeeps(exec, init, w, file, torn, latch, lockLost);
      hide Guarded, PhaseInv, HolderInv, LogInv, AfterPowerLoss;
    case _ =>
      LockingKeeps(exec, init, w, step, w');
      hide Guarded, PhaseInv, HolderInv, LogInv, Next;
  }
}
