/** What the commit protocol guarantees over whole runs: any interleaving of any number of
    processes, any system call failing, kills and power losses at any point. */
module CommitRuns {
  import opened Wrappers
  import opened CommitProtocol

  /** A file that a reader may find, now or after a power loss. */
  ghost predicate OnDisk<S>(disk: Disk<S>, file: File<S>) { file == disk.installed || file in disk.displaced }

  ghost predicate IsRun<J(!new), S(!new)>(exec: (J, S) -> Option<S>, run: seq<World<J, S>>, steps: seq<Step<J, S>>) {
    && |run| == |steps| + 1
    && forall i :: 0 <= i < |steps| ==> Next(exec, run[i], steps[i], run[i + 1])
  }

  lemma {:induction false} RunInv<J(!new), S(!new)>(
    exec: (J, S) -> Option<S>, init: S, run: seq<World<J, S>>, steps: seq<Step<J, S>>, i: nat)
    requires IsRun(exec, run, steps) && Inv(exec, init, run[0]) && i < |run|
    ensures Inv(exec, init, run[i])
  {
    if i > 0 {
      RunInv(exec, init, run, steps, i - 1);
      StepKeeps(exec, init, run[i - 1], steps[i - 1], run[i]);
    }
  }

  // ---------- Serial and durable ----------

  /** At every moment, and after a power loss at that moment, the state file holds an intact
      state, and it is the result of running the logged jobs one after the other. */
  lemma NeverTorn<J(!new), S(!new)>(
    exec: (J, S) -> Option<S>, init: S, run: seq<World<J, S>>, steps: seq<Step<J, S>>, i: nat, file: File<S>)
    requires IsRun(exec, run, steps) && Initial(init, run[0]) && i < |run|
    requires OnDisk(run[i].disk, file)
    ensures Durable(file) && Durable(run[i].disk.installed)
    ensures Replay(exec, init, run[i].log) == Some(run[i].disk.installed.contents.state)
    ensures file == run[i].disk.installed || Replay(exec, init, DurableLog(run[i])) == Some(file.contents.state)
  {
    InitialInv(exec, init, run[0]);
    RunInv(exec, init, run, steps, i);
  }

  /** The state file only ever changes by a rename that installs the job's result on the state
      it replaces, or by a power loss that brings back the durable state. */
  lemma StateChanges<J(!new), S(!new)>(
    exec: (J, S) -> Option<S>, init: S, w: World<J, S>, step: Step<J, S>, w': World<J, S>)
    requires Inv(exec, init, w) && Next(exec, w, step, w')
    requires w'.disk.installed.contents != w.disk.installed.contents || w'.log != w.log
    ensures || (&& step == Syscall(Done) && w.holder.Some? && w.holder.value.phase.Marked? && w.holder.value.task.Write?
                && Settled(w.disk) && LatchDurable(w.disk)
                && w'.log == w.log + [w.holder.value.task.job]
                && exec(w.holder.value.task.job, w.disk.installed.contents.state)
                   == Some(w'.disk.installed.contents.state))
            || (step.PowerLoss? && !Settled(w.disk) && w'.log == DurableLog(w))
  {
  }

  lemma DurableLogGrows<J(!new), S(!new)>(
    exec: (J, S) -> Option<S>, init: S, w: World<J, S>, step: Step<J, S>, w': World<J, S>)
    requires Inv(exec, init, w) && Next(exec, w, step, w')
    ensures DurableLog(w) <= DurableLog(w') <= w'.log
  {
  }

  lemma DurableLogIsPrefix<J(!new), S(!new)>(w: World<J, S>)
    ensures DurableLog(w) <= w.log
  {
  }

  /** No committed job is ever lost: the durable log only grows. */
  lemma {:induction false} DurableLogPrefix<J(!new), S(!new)>(
    exec: (J, S) -> Option<S>, init: S, run: seq<World<J, S>>, steps: seq<Step<J, S>>, i: nat, j: nat)
    requires IsRun(exec, run, steps) && Inv(exec, init, run[0]) && i <= j < |run|
    ensures DurableLog(run[i]) <= DurableLog(run[j]) <= run[j].log
  {
    hide Inv, Next, DurableLog;
    if i == j {
      DurableLogIsPrefix(run[i]);
    } else {
      DurableLogPrefix(exec, init, run, steps, i, j - 1);
      RunInv(exec, init, run, steps, j - 1);
      assert Next(exec, run[j - 1], steps[j - 1], run[j - 1 + 1]);
      DurableLogGrows(exec, init, run[j - 1], steps[j - 1], run[j]);
    }
  }

  /** A transaction that returned normally is the last logged job, is durable, and its state is
      what any reader finds and what any power loss leaves. */
  lemma Acknowledged<J(!new), S(!new)>(exec: (J, S) -> Option<S>, init: S, w: World<J, S>, state: S)
    requires Inv(exec, init, w) && w.holder.Some? && w.holder.value.phase == Finished(Committed(state))
    ensures w.holder.value.task.Write? && w.log != [] && w.log[|w.log| - 1] == w.holder.value.task.job
    ensures DurableLog(w) == w.log && Settled(w.disk) && w.disk.installed.contents == Intact(state)
    ensures Replay(exec, init, w.log) == Some(state)
  {
  }

  // ---------- The latch ----------

  /** Contents that a reader may find, now or after a power loss. */
  ghost predicate Possible<S(!new)>(disk: Disk<S>, contents: Contents<S>) {
    exists file :: OnDisk(disk, file) && contents == file.contents
  }

  /** The latch stands and nobody is past the health check. */
  ghost predicate Latched<J, S>(w: World<J, S>) {
    && LatchDurable(w.disk)
    && (w.holder.Some? ==>
          var phase := w.holder.value.phase;
          phase.Entered? || phase.Inspected? || phase.StateSynced? || phase.Finished?)
  }

  /** Some recovery has made the observed state durable and is about to clear the latch. */
  ghost predicate RecoveryConfirmed<J, S>(w: World<J, S>) {
    w.holder.Some? && w.holder.value.phase == Clearing(Recovery)
  }

  lemma LatchedStep<J(!new), S(!new)>(
    exec: (J, S) -> Option<S>, init: S, w: World<J, S>, step: Step<J, S>, w': World<J, S>, contents: Contents<S>)
    requires Inv(exec, init, w) && Next(exec, w, step, w') && Latched(w) && !RecoveryConfirmed(w')
    ensures Latched(w') && w'.log <= w.log
    ensures Possible(w'.disk, contents) ==> Possible(w.disk, contents)
  {
    if step.PowerLoss? {
      assert step.file == w.disk.installed || step.file in w.disk.displaced;
    }
  }

  /** Once the latch stands, no process, restarted or not, changes the state until a recovery
      has confirmed it: whatever is found later could have been found at the start. */
  lemma {:induction false} LatchBlocksWrites<J(!new), S(!new)>(
    exec: (J, S) -> Option<S>, init: S, run: seq<World<J, S>>, steps: seq<Step<J, S>>, i: nat, j: nat,
    contents: Contents<S>)
    requires IsRun(exec, run, steps) && Inv(exec, init, run[0]) && i <= j < |run|
    requires Latched(run[i])
    requires forall k :: i <= k <= j ==> !RecoveryConfirmed(run[k])
    ensures Latched(run[j]) && run[j].log <= run[i].log
    ensures Possible(run[j].disk, contents) ==> Possible(run[i].disk, contents)
  {
    hide Inv, Next, Latched, RecoveryConfirmed, Possible;
    if i < j {
      LatchBlocksWrites(exec, init, run, steps, i, j - 1, contents);
      RunInv(exec, init, run, steps, j - 1);
      assert Next(exec, run[j - 1], steps[j - 1], run[j - 1 + 1]);
      LatchedStep(exec, init, run[j - 1], steps[j - 1], run[j], contents);
    }
  }

  /** The visible latch stands, durable or not, and nobody is past the health check. */
  ghost predicate VisiblyLatched<J, S>(w: World<J, S>) {
    && w.disk.latch
    && (w.holder.Some? ==>
          var phase := w.holder.value.phase;
          phase.Entered? || phase.Inspected? || phase.StateSynced? || phase.Finished?)
  }

  lemma VisiblyLatchedStep<J(!new), S(!new)>(
    exec: (J, S) -> Option<S>, init: S, w: World<J, S>, step: Step<J, S>, w': World<J, S>)
    requires Inv(exec, init, w) && Next(exec, w, step, w') && VisiblyLatched(w)
    requires !step.PowerLoss? && !RecoveryConfirmed(w')
    ensures VisiblyLatched(w') && w'.log == w.log
    ensures w'.disk.installed.contents == w.disk.installed.contents
  {
  }

  /** A latch that is visible but whose own durability is still open, as a process killed before
      its rename leaves it, blocks all writes too: short of a power loss nothing changes the log
      or the state until a recovery has confirmed it. */
  lemma {:induction false} VisibleLatchBlocksWrites<J(!new), S(!new)>(
    exec: (J, S) -> Option<S>, init: S, run: seq<World<J, S>>, steps: seq<Step<J, S>>, i: nat, j: nat)
    requires IsRun(exec, run, steps) && Inv(exec, init, run[0]) && i <= j < |run|
    requires VisiblyLatched(run[i])
    requires forall k :: i <= k < j ==> !steps[k].PowerLoss?
    requires forall k :: i <= k <= j ==> !RecoveryConfirmed(run[k])
    ensures VisiblyLatched(run[j]) && run[j].log == run[i].log
    ensures run[j].disk.installed.contents == run[i].disk.installed.contents
  {
    hide VisiblyLatched, RecoveryConfirmed, Inv, Next;
    if i < j {
      VisibleLatchBlocksWrites(exec, init, run, steps, i, j - 1);
      RunInv(exec, init, run, steps, j - 1);
      assert Next(exec, run[j - 1], steps[j - 1], run[j - 1 + 1]);
      VisiblyLatchedStep(exec, init, run[j - 1], steps[j - 1], run[j]);
    }
  }

  // ---------- Where the files come from ----------

  /** The step is the rename of a job's result on the state that the file held. */
  ghost predicate Renames<J, S>(
    exec: (J, S) -> Option<S>, w: World<J, S>, step: Step<J, S>, before: Contents<S>, after: Contents<S>)
  {
    && step == Syscall(Done) && w.holder.Some? && w.holder.value.phase.Marked? && w.holder.value.task.Write?
    && before == w.disk.installed.contents && before.Intact? && after.Intact?
    && exec(w.holder.value.task.job, before.state) == Some(after.state)
  }

  /** Every file found after a step holds what some file held before it, or the result of the job
      that the step renamed. */
  lemma FileOrigin<J(!new), S(!new)>(
    exec: (J, S) -> Option<S>, init: S, w: World<J, S>, step: Step<J, S>, w': World<J, S>, file': File<S>)
    returns (file: File<S>)
    requires Inv(exec, init, w) && Next(exec, w, step, w') && OnDisk(w'.disk, file')
    ensures OnDisk(w.disk, file)
    ensures file'.contents == file.contents || Renames(exec, w, step, file.contents, file'.contents)
  {
    hide LogInv;
    match step
    case Syscall(io) =>
      AdvanceFiles(ConfigOf(w, w.holder.value), io, UpdateOf(exec, w.holder.value));
      hide Advance, PhaseInv;
      file := if file' in w.disk.displaced then file' else w.disk.installed;
    case PowerLoss(found, _, _, _) =>
      file := found;
    case _ =>
      file := file';
  }

  /** A state that could still be lost is always behind the latch: when the process that
      renamed it goes away before confirming it, every later write is blocked. */
  lemma UncertainIsLatched<J(!new), S(!new)>(exec: (J, S) -> Option<S>, init: S, w: World<J, S>)
    requires Inv(exec, init, w) && !Settled(w.disk)
    requires w.holder.None? || !w.holder.value.phase.Renamed?
    ensures Latched(w)
  {
  }
}
