/** state_store.py, call by call. Every system call may fail; the methods are proved to walk
    through the commit protocol and nothing else. */
module StateStore {
  import opened Wrappers
  import opened CommitProtocol

  class StateStore<S(==)> {
    var disk: Disk<S>
    /** `_uncertain_paths` holds this store's lock path. */
    var latched: bool
    /** Where the current call stands in the protocol, and how it got there. */
    ghost var phase: Phase<S>
    ghost var configs: seq<Config<S>>
    ghost var answers: seq<Answer<S>>

    ghost function Here(): Config<S>
      reads this
    {
      Config(disk, latched, phase)
    }

    /** The history is a walk of the protocol that started on a guarded disk. */
    ghost predicate History()
      reads this`configs, this`answers
    {
      Walk(configs, answers) && Guarded(configs[0].disk) && PhaseInv(configs[0])
    }

    /** The history leads to the present state. */
    ghost predicate Valid()
      reads this
    {
      History() && |configs| == |answers| + 1 && configs[|answers|] == Here()
    }

    /** One call inside the exclusive lock. */
    constructor (disk: Disk<S>, latched: bool, kind: Kind)
      requires Guarded(disk)
      ensures Valid() && Here() == Config(disk, latched, Entered(kind)) && configs == [Here()]
    {
      this.disk, this.latched, this.phase := disk, latched, Entered(kind);
      this.configs, this.answers := [Config(disk, latched, Entered(kind))], [];
    }

    /** What the protocol has established by now. */
    lemma Holds()
      requires Valid()
      ensures Guarded(disk) && PhaseInv(Here())
    {
      WalkKeeps(configs, answers, |answers|);
    }

    lemma CommittedHolds(state: S)
      requires Valid() && phase == Finished(Committed(state))
      ensures disk.installed == File(Intact(state), true) && Settled(disk) && !disk.latch && !latched
    {
      Holds();
    }

    lemma RecoveredHolds()
      requires Valid() && phase == Finished(Recovered)
      ensures Settled(disk) && !disk.latch && disk.latchOutcomes == {false} && !latched
    {
      Holds();
    }

    /** Appends the step that just happened to the history. */
    ghost method Record(io: Io, update: Option<S>, next: Phase<S>)
      requires History() && |configs| == |answers| + 1
      requires configs[|answers|].phase == phase
      requires Config(disk, latched, next) == Advance(configs[|answers|], io, update)
      modifies this`phase, this`configs, this`answers
      ensures Valid() && phase == next && old(configs) <= configs && answers == old(answers) + [Answer(io, update)]
    {
      WalkOne(configs, answers, Answer(io, update));
      hide Advance, Guarded, PhaseInv;
      configs, answers := configs + [Config(disk, latched, next)], answers + [Answer(io, update)];
      phase := next;
    }

    /** The exception path of `_set_uncertain_unlocked`: write the visible latch again, then
        re-raise. `restored` is false when that write fails too. */
    method Relatch() returns (restored: bool)
      requires Valid() && phase.Relatching?
      modifies this
      ensures Valid() && phase == Finished(Raised) && latched == old(latched)
      ensures old(configs) <= configs && old(answers) <= answers
      ensures restored ==> disk.latch
      ensures Settled(disk) && disk.installed == old(disk).installed
    {
      Holds();
      var io: Io := *;
      disk := SetLatch(disk, true, io);
      Record(io, None, Finished(Raised));
      restored := io.Done?;
    }

    /** `_set_uncertain_unlocked`: the in-memory latch first, then the lock file, its data and
        the directory; on any failure the visible latch is written again. When even that write
        fails, the in-memory latch still stands and no state can be lost. */
    method SetUncertain(uncertain: bool) returns (ok: bool, restored: bool)
      requires Valid() && if uncertain then phase.TempSynced? else phase.Clearing?
      modifies this
      ensures Valid() && old(configs) <= configs && old(answers) <= answers
      ensures ok ==> phase == (if uncertain then Marked(old(phase).next) else Finished(EndOf(old(phase).reason)))
      ensures !ok ==> phase == Finished(Raised) && latched && Settled(disk) && (restored ==> disk.latch)
    {
      hide History, SetLatch, SyncLatch, SyncDirectory, SyncState, SyncTemp, WriteTemp, Rename, Settled;
      ghost var start := phase;
      restored := false;
      var io: Io := *;
      latched := true;
      disk := SetLatch(disk, uncertain, io);
      Record(io, None, if !io.Done? then Relatching
                       else if uncertain then MarkWritten(start.next) else Truncated(start.reason));
      ok := io.Done?;
      if ok {
        ok := SyncLatchFile(uncertain);
      }
      if ok {
        ok := SyncLatchEntry(uncertain);
      }
      if !ok {
        restored := Relatch();
      }
    }

    /** `lock.flush(); os.fsync(lock)`. */
    method SyncLatchFile(uncertain: bool) returns (ok: bool)
      requires Valid() && if uncertain then phase.MarkWritten? else phase.Truncated?
      modifies this
      ensures Valid() && old(configs) <= configs && old(answers) <= answers && latched == old(latched)
      ensures ok ==> phase == (if uncertain then MarkSynced(old(phase).next) else ClearSynced(old(phase).reason))
      ensures !ok ==> phase == Relatching
    {
      hide History, SetLatch, SyncLatch, SyncDirectory, SyncState, SyncTemp, WriteTemp, Rename;
      ghost var start := phase;
      var io: Io := *;
      disk := SyncLatch(disk, io);
      Record(io, None, if !io.Done? then Relatching else if uncertain then MarkSynced(start.next) else ClearSynced(start.reason));
      ok := io.Done?;
    }

    /** `_sync_directory()` for the latch; a cleared latch is then forgotten in memory too. */
    method SyncLatchEntry(uncertain: bool) returns (ok: bool)
      requires Valid() && if uncertain then phase.MarkSynced? else phase.ClearSynced?
      modifies this
      ensures Valid() && old(configs) <= configs && old(answers) <= answers
      ensures ok ==> phase == (if uncertain then Marked(old(phase).next) else Finished(EndOf(old(phase).reason)))
      ensures !ok ==> phase == Relatching && latched == old(latched)
    {
      hide History, SetLatch, SyncLatch, SyncDirectory, SyncState, SyncTemp, WriteTemp, Rename;
      ghost var start := phase;
      var io: Io := *;
      disk := SyncDirectory(disk, io);
      if io.Done? && !uncertain {
        latched := false;
      }
      Record(io, None, if !io.Done? then Relatching else if uncertain then Marked(start.next) else Finished(EndOf(start.reason)));
      ok := io.Done?;
    }

    /** `_check_health_unlocked`: the in-memory latch, then the visible one. */
    method CheckHealthUnlocked() returns (healthy: bool)
      requires Valid() && (phase == Entered(Writing) || phase.Updated?)
      modifies this`phase, this`configs, this`answers
      ensures Valid() && old(configs) <= configs && old(answers) <= answers
      ensures healthy ==> phase == (if old(phase).Updated? then Ready(old(phase).next) else Healthy)
      ensures healthy ==> !latched && !disk.latch
      ensures !healthy ==> phase == Finished(Blocked) || phase == Finished(Raised)
      ensures latched || disk.latch ==> !healthy
      ensures |answers| == |old(answers)| + 1
    {
      var io: Io := *;
      healthy := !latched && io.Done? && !disk.latch;
      Record(io, None, if latched then Finished(Blocked) else if !io.Done? then Finished(Raised)
                       else if disk.latch then Finished(Blocked) else if phase.Updated? then Ready(phase.next) else Healthy);
    }

    /** `_atomic_write_unlocked`: temporary file, durable latch, rename, directory, clear. */
    method AtomicWrite(next: S) returns (committed: bool)
      requires Valid() && phase == Updated(next)
      modifies this
      ensures Valid() && old(configs) <= configs && old(answers) <= answers
      ensures committed <==> phase == Finished(Committed(next))
      ensures !committed ==> phase == Finished(Raised) || phase == Finished(Blocked)
    {
      hide History, Advance;
      var ok := CheckHealthUnlocked();
      if !ok { return false; }
      ok := PrepareTemp(next);
      if !ok { return false; }
      committed := Install(next);
    }

    /** From the durable latch to the cleared one. */
    method Install(next: S) returns (committed: bool)
      requires Valid() && phase == TempSynced(next)
      modifies this
      ensures Valid() && old(configs) <= configs && old(answers) <= answers
      ensures committed <==> phase == Finished(Committed(next))
      ensures !committed ==> phase == Finished(Raised)
    {
      hide History, Advance;
      var ok, restored := SetUncertain(true);
      if !ok { return false; }
      ok := Replace(next);
      if !ok {
        ok, restored := SetUncertain(false);
        return false;
      }
      ok := SyncStateEntry();
      if !ok { return false; }
      committed, restored := SetUncertain(false);
    }

    /** `os.replace` of the state file by the temporary one. */
    method Replace(next: S) returns (ok: bool)
      requires Valid() && phase == Marked(next)
      modifies this
      ensures Valid() && old(configs) <= configs && old(answers) <= answers && latched == old(latched)
      ensures phase == if ok then Renamed(next) else Clearing(Unwind)
    {
      hide History, SetLatch, SyncLatch, SyncDirectory, SyncState, SyncTemp, WriteTemp, Rename;
      var io: Io := *;
      disk := Rename(disk, io);
      Record(io, None, if io.Done? then Renamed(next) else Clearing(Unwind));
      ok := io.Done?;
    }

    /** `_sync_directory()` after the rename, or in a recovery. */
    method SyncStateEntry() returns (ok: bool)
      requires Valid() && (phase.Renamed? || phase.StateSynced?)
      modifies this
      ensures Valid() && old(configs) <= configs && old(answers) <= answers && latched == old(latched)
      ensures ok ==> phase == Clearing(if old(phase).Renamed? then Commit(old(phase).next) else Recovery)
      ensures !ok ==> phase == Finished(Raised)
    {
      hide History, SetLatch, SyncLatch, SyncDirectory, SyncState, SyncTemp, WriteTemp, Rename;
      ghost var start := phase;
      var io: Io := *;
      disk := SyncDirectory(disk, io);
      Record(io, None, if !io.Done? then Finished(Raised)
                       else Clearing(if start.Renamed? then Commit(start.next) else Recovery));
      ok := io.Done?;
    }

    /** Write and sync the temporary file. */
    method PrepareTemp(next: S) returns (ok: bool)
      requires Valid() && phase == Ready(next)
      modifies this
      ensures Valid() && old(configs) <= configs && old(answers) <= answers && latched == old(latched)
      ensures ok ==> phase == TempSynced(next)
      ensures !ok ==> phase == Finished(Raised)
    {
      hide History, SetLatch, SyncLatch, SyncDirectory, SyncState, SyncTemp, WriteTemp, Rename;
      var io: Io := *;
      disk := WriteTemp(disk, next, io);
      Record(io, None, if io.Done? then TempWritten(next) else Finished(Raised));
      ok := io.Done?;
      if ok {
        ok := SyncTempFile(next);
      }
    }

    /** `os.fsync` of the temporary file. */
    method SyncTempFile(next: S) returns (ok: bool)
      requires Valid() && phase == TempWritten(next)
      modifies this
      ensures Valid() && old(configs) <= configs && old(answers) <= answers && latched == old(latched)
      ensures phase == if ok then TempSynced(next) else Finished(Raised)
    {
      hide History, SetLatch, SyncLatch, SyncDirectory, SyncState, SyncTemp, WriteTemp, Rename;
      var io: Io := *;
      disk := SyncTemp(disk, io);
      Record(io, None, if io.Done? then TempSynced(next) else Finished(Raised));
      ok := io.Done?;
    }

    /** The first half of `transaction_section`: health check and read, under the lock. */
    method Load() returns (base: Option<S>)
      requires Valid() && phase == Entered(Writing)
      modifies this`phase, this`configs, this`answers
      ensures Valid() && old(configs) <= configs && old(answers) <= answers
      ensures base.Some? ==> phase == Loaded(base.value) && disk.installed.contents == Intact(base.value)
      ensures base.None? ==> phase == Finished(Blocked) || phase == Finished(Raised)
      ensures latched || disk.latch ==> base.None?
      ensures if base.Some? then |answers| == |old(answers)| + 2 else |answers| <= |old(answers)| + 2
    {
      var healthy := CheckHealthUnlocked();
      if !healthy { return None; }
      var io: Io := *;
      base := if io.Done? && disk.installed.contents.Intact? then Some(disk.installed.contents.state) else None;
      Record(io, None, if base.Some? then Loaded(base.value) else Finished(Raised));
    }

    /** The second half of `transaction_section`: the update function has returned its result,
        or raised, and a result is written out under the same lock. */
    method Store(update: Option<S>) returns (committed: bool)
      requires Valid() && phase.Loaded?
      modifies this
      ensures Valid() && old(configs) <= configs && old(answers) <= answers
      ensures committed <==> update.Some? && phase == Finished(Committed(update.value))
      ensures committed ==> disk.installed == File(Intact(update.value), true) && Settled(disk) && !disk.latch && !latched
      ensures !committed ==> phase == Finished(Raised) || phase == Finished(Blocked)
      ensures update.None? ==> disk == old(disk) && latched == old(latched)
      ensures |answers| > |old(answers)| && answers[|old(answers)|].update == update
    {
      Record(Done, update, if update.Some? then Updated(update.value) else Finished(Raised));
      if update.None? {
        committed := false;
      } else {
        committed := AtomicWrite(update.value);
        if committed { CommittedHolds(update.value); }
      }
    }

    /** `recover`: make the observed state durable, then clear the latch. */
    method Recover() returns (recovered: bool)
      requires Valid() && phase == Entered(Recovering)
      modifies this
      ensures Valid() && old(configs) <= configs && old(answers) <= answers
      ensures recovered <==> phase == Finished(Recovered)
      ensures recovered ==> Settled(disk) && !disk.latch && disk.latchOutcomes == {false} && !latched
    {
      hide Advance;
      recovered := SyncStateFile();
      if !recovered { return false; }
      recovered := SyncStateEntry();
      if !recovered { return false; }
      var restored;
      recovered, restored := SetUncertain(false);
      if recovered { RecoveredHolds(); }
    }

    /** Recovery reads the state, which must parse, and syncs the file that holds it. */
    method SyncStateFile() returns (ok: bool)
      requires Valid() && phase == Entered(Recovering)
      modifies this
      ensures Valid() && old(configs) <= configs && old(answers) <= answers
      ensures phase == if ok then StateSynced else Finished(Raised)
    {
      hide History, SetLatch, SyncLatch, SyncDirectory, SyncState, SyncTemp, WriteTemp, Rename;
      var io: Io := *;
      ok := io.Done? && disk.installed.contents.Intact?;
      Record(io, None, if ok then Inspected else Finished(Raised));
      if !ok { return false; }
      io := *;
      disk := SyncState(disk, io);
      Record(io, None, if io.Done? then StateSynced else Finished(Raised));
      ok := io.Done?;
    }

    /** `read_all`: reads are never blocked by the latch. */
    method ReadAll() returns (state: Option<S>)
      requires Valid() && phase == Entered(Reading)
      modifies this`phase, this`configs, this`answers
      ensures Valid() && old(configs) <= configs && old(answers) <= answers
      ensures state.Some? ==> disk.installed.contents == Intact(state.value)
      ensures phase == Finished(if state.Some? then Observed(state.value) else Raised)
    {
      var io: Io := *;
      state := if io.Done? && disk.installed.contents.Intact? then Some(disk.installed.contents.state) else None;
      Record(io, None, Finished(if state.Some? then Observed(state.value) else Raised));
    }
  }
}
