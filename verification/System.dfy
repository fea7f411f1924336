/** The whole orchestrator: CPU and hugepage transactions run by any number of processes over
    the commit protocol. */
module System {
  import opened Wrappers
  import opened CommitProtocol
  import opened CommitRuns
  import opened Ledger
  import Requests
  import Guarantees
  import Hugepages

  /** The two sections of the state file. */
  datatype Sections = Sections(book: Book, huge: Hugepages.Records)

  /** One transaction: a CPU request with what the host reports meanwhile, or a hugepage write. */
  datatype Job =
    | CpuJob(request: Requests.Request, host: Requests.Host)
    | HugeJob(op: Hugepages.Op)

  /** The update function of the transaction; None when it raises. */
  function Run(job: Job, sections: Sections): Option<Sections> {
    match job
    case CpuJob(request, host) =>
      (match Requests.Execute(request, host, sections.book)
       case Ok(outcome) => Some(sections.(book := outcome.book))
       case Err(_) => None)
    case HugeJob(op) => Some(sections.(huge := Hugepages.Apply(op, sections.huge)))
  }

  predicate By(job: Job, service: string) {
    job.CpuJob? && job.request.service == service
  }

  // ---------- One transaction ----------

  lemma RunKeepsWellFormed(job: Job, sections: Sections)
    requires WellFormed(sections.book) && Run(job, sections).Some?
    ensures WellFormed(Run(job, sections).value.book)
  {
    hide WellFormed;
    if job.CpuJob? {
      Guarantees.ExecuteKeepsWellFormed(job.request, job.host, sections.book);
      hide Requests.Execute;
    }
  }

  /** A transaction changes its own section only. */
  lemma RunKeepsOtherSection(job: Job, sections: Sections)
    requires Run(job, sections).Some?
    ensures job.CpuJob? ==> Run(job, sections).value.huge == sections.huge
    ensures job.HugeJob? ==> Run(job, sections).value.book == sections.book
  {
    hide Requests.Execute, Hugepages.Apply;
  }

  lemma RunSparesProtected(job: Job, sections: Sections, service: string)
    requires WellFormed(sections.book) && Run(job, sections).Some? && !By(job, service)
    requires service in sections.book && sections.book[service].policy == NonPreemptive
    ensures Guarantees.Lookup(Run(job, sections).value.book, service) == Some(sections.book[service])
  {
    hide WellFormed;
    if job.CpuJob? {
      Guarantees.ProtectedOwnerUntouched(job.request, job.host, sections.book, service);
      hide Requests.Execute;
    }
  }

  // ---------- A log of transactions ----------

  lemma {:induction false} ReplayWellFormed(init: Sections, log: seq<Job>)
    requires WellFormed(init.book) && Replay(Run, init, log).Some?
    ensures WellFormed(Replay(Run, init, log).value.book)
  {
    hide WellFormed, Run;
    if log != [] {
      ReplayWellFormed(init, log[..|log| - 1]);
      RunKeepsWellFormed(log[|log| - 1], Replay(Run, init, log[..|log| - 1]).value);
    }
  }

  /** Jobs of others, however many, leave a protected owner exactly as it was. */
  lemma {:induction false} ReplaySparesProtected(init: Sections, log: seq<Job>, n: nat, service: string)
    requires WellFormed(init.book) && n <= |log| && Replay(Run, init, log).Some?
    requires Replay(Run, init, log[..n]).Some?
    requires service in Replay(Run, init, log[..n]).value.book
    requires Replay(Run, init, log[..n]).value.book[service].policy == NonPreemptive
    requires forall m :: n <= m < |log| ==> !By(log[m], service)
    ensures Guarantees.Lookup(Replay(Run, init, log).value.book, service)
         == Some(Replay(Run, init, log[..n]).value.book[service])
  {
    hide WellFormed, Run;
    if n == |log| {
      assert log[..n] == log;
    } else {
      var front := log[..|log| - 1];
      assert front[..n] == log[..n];
      ReplaySparesProtected(init, front, n, service);
      ReplayWellFormed(init, front);
      RunSparesProtected(log[|log| - 1], Replay(Run, init, front).value, service);
    }
  }

  // ---------- Whole runs ----------

  /** In every reachable world, and after a power loss there, the ledger is intact and well
      formed: no CPU has two owners. */
  lemma LedgerAlwaysWellFormed(
    init: Sections, run: seq<World<Job, Sections>>, steps: seq<Step<Job, Sections>>, i: nat, file: File<Sections>)
    requires IsRun(Run, run, steps) && Initial(init, run[0]) && WellFormed(init.book) && i < |run|
    requires OnDisk(run[i].disk, file)
    ensures file.contents.Intact? && WellFormed(file.contents.state.book)
  {
    hide WellFormed, Run, Next, Inv;
    NeverTorn(Run, init, run, steps, i, file);
    ReplayWellFormed(init, run[i].log);
    if file != run[i].disk.installed {
      ReplayWellFormed(init, DurableLog(run[i]));
    }
  }

  /** However often the pools are reconfigured between requests, no CPU is ever owned through both. */
  lemma NeverOwnedThroughBothPools(
    init: Sections, run: seq<World<Job, Sections>>, steps: seq<Step<Job, Sections>>, i: nat, file: File<Sections>)
    requires IsRun(Run, run, steps) && Initial(init, run[0]) && WellFormed(init.book) && i < |run|
    requires OnDisk(run[i].disk, file)
    ensures file.contents.Intact?
    ensures ClaimedIn(file.contents.state.book, Isolated) !! ClaimedIn(file.contents.state.book, General)
  {
    LedgerAlwaysWellFormed(init, run, steps, i, file);
    hide Run, Next, Initial, IsRun;
  }

  /** Since log position `n`, nothing by `service` has been logged and nothing by it is pending. */
  ghost predicate ForeignSince(w: World<Job, Sections>, n: nat, service: string) {
    && n <= |w.log|
    && (forall m :: n <= m < |w.log| ==> !By(w.log[m], service))
    && (w.holder.Some? && w.holder.value.task.Write? && By(w.holder.value.task.job, service)
        ==> w.holder.value.phase.Finished?)
  }

  /** The service does not start a request in this step. */
  ghost predicate NotBy(step: Step<Job, Sections>, service: string) {
    step.Acquire? && step.task.Write? ==> !By(step.task.job, service)
  }

  lemma ForeignStep(
    init: Sections, w: World<Job, Sections>, step: Step<Job, Sections>, w': World<Job, Sections>, n: nat,
    service: string)
    requires Inv(Run, init, w) && Next(Run, w, step, w') && NotBy(step, service)
    requires ForeignSince(w, n, service) && n <= |w'.log|
    ensures ForeignSince(w', n, service)
  {
    hide Run, Guarded, LogInv, By;
  }

  lemma {:induction false} ForeignRun(
    init: Sections, run: seq<World<Job, Sections>>, steps: seq<Step<Job, Sections>>, i: nat, j: nat, service: string)
    requires IsRun(Run, run, steps) && Inv(Run, init, run[0]) && i <= j < |run|
    requires ForeignSince(run[i], |DurableLog(run[i])|, service)
    requires forall k :: i <= k < j ==> NotBy(steps[k], service)
    ensures ForeignSince(run[j], |DurableLog(run[i])|, service)
  {
    hide Run, Inv, Next, ForeignSince, NotBy;
    if i < j {
      ForeignRun(init, run, steps, i, j - 1, service);
      RunInv(Run, init, run, steps, j - 1);
      DurableLogPrefix(Run, init, run, steps, i, j);
      ForeignStep(init, run[j - 1], steps[j - 1], run[j], |DurableLog(run[i])|, service);
    }
  }

  /** End to end. Once a request of `service` that left it protected claims has been
      acknowledged, then through any requests of others, failing system calls, kills, power
      losses, restarts and recoveries, every state that can be observed or can come back
      gives the service exactly those claims, policy and pool, until it makes a request itself. */
  lemma ProtectedGrantSurvives(
    init: Sections, run: seq<World<Job, Sections>>, steps: seq<Step<Job, Sections>>, i: nat, j: nat,
    service: string, granted: Sections, file: File<Sections>)
    requires IsRun(Run, run, steps) && Initial(init, run[0]) && WellFormed(init.book) && i <= j < |run|
    requires run[i].holder.Some? && run[i].holder.value.phase == Finished(Committed(granted))
    requires service in granted.book && granted.book[service].policy == NonPreemptive
    requires forall k :: i <= k < j ==> NotBy(steps[k], service)
    requires OnDisk(run[j].disk, file)
    ensures file.contents.Intact?
    ensures Guarantees.Lookup(file.contents.state.book, service) == Some(granted.book[service])
  {
    hide WellFormed, Run, Next, Inv;
    InitialInv(Run, init, run[0]);
    RunInv(Run, init, run, steps, i);
    Acknowledged(Run, init, run[i], granted);
    var n := |run[i].log|;
    ForeignRun(init, run, steps, i, j, service);
    DurableLogPrefix(Run, init, run, steps, i, j);
    NeverTorn(Run, init, run, steps, j, file);
    var log := if file == run[j].disk.installed then run[j].log else DurableLog(run[j]);
    assert log[..n] == run[i].log;
    ReplaySparesProtected(init, log, n, service);
  }

  /** A reader that returns sees such a state too. */
  lemma ProtectedGrantIsObserved(
    init: Sections, run: seq<World<Job, Sections>>, steps: seq<Step<Job, Sections>>, i: nat, j: nat,
    service: string, granted: Sections, observed: Sections)
    requires IsRun(Run, run, steps) && Initial(init, run[0]) && WellFormed(init.book) && i <= j < |run|
    requires run[i].holder.Some? && run[i].holder.value.phase == Finished(Committed(granted))
    requires service in granted.book && granted.book[service].policy == NonPreemptive
    requires forall k :: i <= k < j ==> NotBy(steps[k], service)
    requires run[j].holder.Some? && run[j].holder.value.phase == Finished(Observed(observed))
    ensures Guarantees.Lookup(observed.book, service) == Some(granted.book[service])
  {
    hide WellFormed, Run, Next;
    InitialInv(Run, init, run[0]);
    RunInv(Run, init, run, steps, j);
    ProtectedGrantSurvives(init, run, steps, i, j, service, granted, run[j].disk.installed);
  }

  // ---------- Policies and pools over the log ----------

  /** While a service owns CPUs without interruption its pool stays and protection is not lost. */
  lemma {:induction false} PolicyAndPoolOverLog(init: Sections, log: seq<Job>, n: nat, service: string)
    requires WellFormed(init.book) && n <= |log|
    requires forall m :: n <= m <= |log| ==> Replay(Run, init, log[..m]).Some? && service in Replay(Run, init, log[..m]).value.book
    ensures var first := Replay(Run, init, log[..n]).value.book[service];
            var last := Replay(Run, init, log[..|log|]).value.book[service];
            last.pool == first.pool && (first.policy == NonPreemptive ==> last.policy == NonPreemptive)
  {
    hide WellFormed;
    if n < |log| {
      var front := log[..|log| - 1];
      forall m | n <= m <= |front| ensures front[..m] == log[..m] {}
      PolicyAndPoolOverLog(init, front, n, service);
      assert front[..|front|] == front && log[..|log|] == log;
      ReplayWellFormed(init, front);
      var job, before := log[|log| - 1], Replay(Run, init, front).value;
      assert Replay(Run, init, log[..|log|]) == Run(job, before);
      if job.CpuJob? {
        Guarantees.PolicyAndPoolPersist(job.request, job.host, before.book, service);
      }
      hide Requests.Execute;
    }
  }

  // ---------- Explicit claims ----------

  lemma RunSparesExplicit(job: Job, sections: Sections, service: string)
    requires WellFormed(sections.book) && Run(job, sections).Some? && !By(job, service)
    requires service in sections.book && sections.book[service].explicit != {}
    ensures var after := Run(job, sections).value.book;
            service in after && SameExplicit(after[service], sections.book[service])
  {
    hide WellFormed;
    if job.CpuJob? {
      Guarantees.ExplicitClaimsUntouched(job.request, job.host, sections.book, service);
      hide Requests.Execute;
    }
  }

  /** The explicit claims, the policy and the pool agree. */
  predicate SameExplicit(a: Entry, b: Entry) { a.explicit == b.explicit && a.policy == b.policy && a.pool == b.pool }

  /** Jobs of others leave the explicit claims of any owner, legacy or protected, as they were. */
  lemma {:induction false} ReplaySparesExplicit(init: Sections, log: seq<Job>, n: nat, service: string)
    requires WellFormed(init.book) && n <= |log| && Replay(Run, init, log).Some?
    requires Replay(Run, init, log[..n]).Some?
    requires service in Replay(Run, init, log[..n]).value.book
    requires Replay(Run, init, log[..n]).value.book[service].explicit != {}
    requires forall m :: n <= m < |log| ==> !By(log[m], service)
    ensures service in Replay(Run, init, log).value.book
    ensures SameExplicit(Replay(Run, init, log).value.book[service], Replay(Run, init, log[..n]).value.book[service])
  {
    hide WellFormed, Run;
    if n == |log| {
      assert log[..n] == log;
    } else {
      var front := log[..|log| - 1];
      assert front[..n] == log[..n];
      ReplaySparesExplicit(init, front, n, service);
      ReplayWellFormed(init, front);
      RunSparesExplicit(log[|log| - 1], Replay(Run, init, front).value, service);
    }
  }

  /** Once a request of `service` that left it explicit NUMA claims has been acknowledged, every
      state that can be observed or can come back gives it exactly those explicit claims, whatever
      its policy, through any continuation by others. */
  lemma ExplicitClaimsSurvive(
    init: Sections, run: seq<World<Job, Sections>>, steps: seq<Step<Job, Sections>>, i: nat, j: nat,
    service: string, granted: Sections, file: File<Sections>)
    requires IsRun(Run, run, steps) && Initial(init, run[0]) && WellFormed(init.book) && i <= j < |run|
    requires run[i].holder.Some? && run[i].holder.value.phase == Finished(Committed(granted))
    requires service in granted.book && granted.book[service].explicit != {}
    requires forall k :: i <= k < j ==> NotBy(steps[k], service)
    requires OnDisk(run[j].disk, file)
    ensures file.contents.Intact? && service in file.contents.state.book
    ensures SameExplicit(file.contents.state.book[service], granted.book[service])
  {
    hide WellFormed, Run, Next, Inv;
    InitialInv(Run, init, run[0]);
    RunInv(Run, init, run, steps, i);
    Acknowledged(Run, init, run[i], granted);
    var n := |run[i].log|;
    ForeignRun(init, run, steps, i, j, service);
    DurableLogPrefix(Run, init, run, steps, i, j);
    NeverTorn(Run, init, run, steps, j, file);
    var log := if file == run[j].disk.installed then run[j].log else DurableLog(run[j]);
    assert log[..n] == run[i].log;
    ReplaySparesExplicit(init, log, n, service);
  }

  // ---------- Policies and pools over runs ----------

  /** In this file the service owns CPUs in the pool, and protected ones if `guarded`. */
  ghost predicate Keeps(contents: Contents<Sections>, service: string, pool: Pool, guarded: bool) {
    && contents.Intact? && service in contents.state.book && contents.state.book[service].pool == pool
    && (guarded ==> contents.state.book[service].policy == NonPreemptive)
  }

  ghost predicate AllKeep(disk: Disk<Sections>, service: string, pool: Pool, guarded: bool) {
    forall file :: OnDisk(disk, file) ==> Keeps(file.contents, service, pool, guarded)
  }

  /** The service owns CPUs in every state that can be found. */
  ghost predicate AlwaysOwns(disk: Disk<Sections>, service: string) {
    forall file :: OnDisk(disk, file) && file.contents.Intact? ==> service in file.contents.state.book
  }

  lemma JobKeeps(job: Job, before: Sections, after: Sections, service: string, pool: Pool, guarded: bool)
    requires WellFormed(before.book) && Run(job, before) == Some(after)
    requires Keeps(Intact(before), service, pool, guarded) && service in after.book
    ensures Keeps(Intact(after), service, pool, guarded)
  {
    hide WellFormed;
    if job.CpuJob? {
      Guarantees.PolicyAndPoolPersist(job.request, job.host, before.book, service);
      hide Requests.Execute;
    }
  }

  lemma StepKeepsPolicy(
    init: Sections, w: World<Job, Sections>, step: Step<Job, Sections>, w': World<Job, Sections>,
    service: string, pool: Pool, guarded: bool)
    requires Inv(Run, init, w) && Next(Run, w, step, w') && WellFormed(init.book)
    requires AllKeep(w.disk, service, pool, guarded) && AlwaysOwns(w'.disk, service)
    ensures AllKeep(w'.disk, service, pool, guarded)
  {
    hide WellFormed, Run, Next, OnDisk;
    forall file' | OnDisk(w'.disk, file') ensures Keeps(file'.contents, service, pool, guarded) {
      var file := FileOrigin(Run, init, w, step, w', file');
      if file'.contents != file.contents {
        ReplayWellFormed(init, w.log);
        JobKeeps(w.holder.value.task.job, file.contents.state, file'.contents.state, service, pool, guarded);
      }
    }
  }

  /** Over any run, through kills and power losses that take back unconfirmed changes: while a
      service owns CPUs in every state that can be found, its pool stays, and once every such
      state protects it, it stays protected. */
  lemma {:induction false} PolicyAndPoolOverRun(
    init: Sections, run: seq<World<Job, Sections>>, steps: seq<Step<Job, Sections>>, i: nat, j: nat,
    service: string, pool: Pool, guarded: bool)
    requires IsRun(Run, run, steps) && Inv(Run, init, run[0]) && WellFormed(init.book) && i <= j < |run|
    requires AllKeep(run[i].disk, service, pool, guarded)
    requires forall k :: i <= k <= j ==> AlwaysOwns(run[k].disk, service)
    ensures AllKeep(run[j].disk, service, pool, guarded)
  {
    hide WellFormed, Run, Next, Inv, AllKeep, AlwaysOwns;
    if i < j {
      PolicyAndPoolOverRun(init, run, steps, i, j - 1, service, pool, guarded);
      RunInv(Run, init, run, steps, j - 1);
      assert Next(Run, run[j - 1], steps[j - 1], run[j - 1 + 1]);
      StepKeepsPolicy(init, run[j - 1], steps[j - 1], run[j], service, pool, guarded);
    }
  }

  // ---------- Hugepage capacity over runs ----------

  ghost predicate Roomy(contents: Contents<Sections>, node: nat, size: nat, total: int) {
    && contents.Intact? && Hugepages.Keyed(contents.state.huge)
    && Hugepages.Tracked(contents.state.huge, node, size) <= total
  }

  /** The hugepage write fits the records that the state file holds. */
  ghost predicate OpFits(op: Hugepages.Op, contents: Contents<Sections>, node: nat, size: nat, total: int) {
    Hugepages.Proper(op) && (contents.Intact? ==> Hugepages.Fits(op, contents.state.huge, node, size, total))
  }

  /** Before the rename of a transaction. */
  ghost predicate Pending<S>(phase: Phase<S>) { phase.Entered? || phase.Healthy? || phase.Loaded? || !Settling(phase) }

  ghost predicate HoldsHugeWrite(w: World<Job, Sections>) {
    && w.holder.Some? && w.holder.value.task.Write? && w.holder.value.task.job.HugeJob?
    && Pending(w.holder.value.phase)
  }

  /** All states that can be found are within capacity, and so will be the one being written. */
  ghost predicate HugeInv(w: World<Job, Sections>, node: nat, size: nat, total: int) {
    && (forall file :: OnDisk(w.disk, file) ==> Roomy(file.contents, node, size, total))
    && (HoldsHugeWrite(w) ==> OpFits(w.holder.value.task.job.op, w.disk.installed.contents, node, size, total))
  }

  /** A hugepage transaction enters the lock only with a write that fits the records then. */
  ghost predicate EntersFitting(w: World<Job, Sections>, step: Step<Job, Sections>, node: nat, size: nat, total: int) {
    step.Acquire? && step.task.Write? && step.task.job.HugeJob? ==>
      OpFits(step.task.job.op, w.disk.installed.contents, node, size, total)
  }

  lemma RenamedIsRoomy(job: Job, before: Sections, after: Sections, node: nat, size: nat, total: int)
    requires Run(job, before) == Some(after) && Roomy(Intact(before), node, size, total)
    requires job.HugeJob? ==> OpFits(job.op, Intact(before), node, size, total)
    ensures Roomy(Intact(after), node, size, total)
  {
    hide Requests.Execute, Hugepages.Apply, Hugepages.Keyed, Hugepages.Tracked;
    if job.HugeJob? {
      Hugepages.WithinIffFits(job.op, before.huge, node, size, total);
    }
  }

  lemma HugeFilesStep(
    init: Sections, w: World<Job, Sections>, step: Step<Job, Sections>, w': World<Job, Sections>,
    node: nat, size: nat, total: int, file': File<Sections>)
    requires Inv(Run, init, w) && Next(Run, w, step, w') && HugeInv(w, node, size, total) && OnDisk(w'.disk, file')
    ensures Roomy(file'.contents, node, size, total)
  {
    hide Run, Next, Inv, Roomy, OpFits;
    var file := FileOrigin(Run, init, w, step, w', file');
    if file'.contents != file.contents {
      RenamedIsRoomy(w.holder.value.task.job, file.contents.state, file'.contents.state, node, size, total);
    }
  }

  /** While its rename is still to come, a writer finds the state file as it was. */
  lemma PendingStep(
    init: Sections, w: World<Job, Sections>, step: Step<Job, Sections>, w': World<Job, Sections>)
    requires Inv(Run, init, w) && Next(Run, w, step, w') && !step.Acquire?
    requires w'.holder.Some? && Pending(w'.holder.value.phase)
    ensures w.holder.Some? && w.holder.value.task == w'.holder.value.task && Pending(w.holder.value.phase)
    ensures w'.disk.installed.contents == w.disk.installed.contents
  {
    hide Run, LogInv, Guarded;
  }

  lemma HugeStep(
    init: Sections, w: World<Job, Sections>, step: Step<Job, Sections>, w': World<Job, Sections>,
    node: nat, size: nat, total: int)
    requires Inv(Run, init, w) && Next(Run, w, step, w') && HugeInv(w, node, size, total)
    requires EntersFitting(w, step, node, size, total)
    ensures HugeInv(w', node, size, total)
  {
    hide Run, Inv, Roomy, OpFits, OnDisk;
    forall file' | OnDisk(w'.disk, file') ensures Roomy(file'.contents, node, size, total) {
      HugeFilesStep(init, w, step, w', node, size, total, file');
    }
    if !step.Acquire? && w'.holder.Some? && Pending(w'.holder.value.phase) {
      PendingStep(init, w, step, w');
    }
    hide Pending;
  }

  /** A check that nobody disturbs makes its transaction enter the lock with a write that fits. */
  lemma AcceptedWriteFits(
    seen: Hugepages.Records, own: Hugepages.Records, contents: Contents<Sections>, service: string,
    requested: Hugepages.Requested, capacity: Option<Hugepages.Capacity>, node: nat, size: nat, total: int)
    requires Hugepages.Keyed(seen) && Hugepages.Tracked(seen, node, size) <= total && Hugepages.Sound(capacity, total)
    requires Hugepages.Check(seen, own, service, node, size, requested, capacity).Some?
    requires Hugepages.Existing(own, service, node, size) <= Hugepages.Existing(seen, service, node, size)
    requires contents.Intact? ==>
      Hugepages.Others(contents.state.huge, service, node, size) <= Hugepages.Others(seen, service, node, size)
    ensures OpFits(Hugepages.Check(seen, own, service, node, size, requested, capacity).value, contents, node, size, total)
  {
    if contents.Intact? {
      Hugepages.AcceptedFits(seen, own, contents.state.huge, service, requested, capacity, node, size, total);
    }
    hide Hugepages.Tracked, Hugepages.Existing, Hugepages.Others, Hugepages.Keyed;
  }

  /** Over any run of any processes, through failed writes, kills and power losses: if every
      hugepage transaction enters the lock with a write that fits the records then, no state that
      can be found promises more pages of a node and size than there are. */
  lemma {:induction false} HugeCapacityOverRun(
    init: Sections, run: seq<World<Job, Sections>>, steps: seq<Step<Job, Sections>>, j: nat,
    node: nat, size: nat, total: int)
    requires IsRun(Run, run, steps) && Inv(Run, init, run[0]) && j < |run| && HugeInv(run[0], node, size, total)
    requires forall k :: 0 <= k < j ==> EntersFitting(run[k], steps[k], node, size, total)
    ensures HugeInv(run[j], node, size, total)
  {
    hide Run, Next, Inv, HugeInv, EntersFitting;
    if j > 0 {
      HugeCapacityOverRun(init, run, steps, j - 1, node, size, total);
      RunInv(Run, init, run, steps, j - 1);
      assert Next(Run, run[j - 1], steps[j - 1], run[j - 1 + 1]);
      HugeStep(init, run[j - 1], steps[j - 1], run[j], node, size, total);
    }
  }
}
