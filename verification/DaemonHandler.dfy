/** daemon_handler.py: the CPU handlers over a candidate ledger, and the transaction that
    loads the candidate, commits it and publishes it. */
module DaemonHandler {
  import opened Wrappers
  import opened Codec
  import opened Sizing
  import opened Ledger
  import opened Requests
  import opened Snapshots
  import DB = AllocationsDB
  import CommitProtocol
  import Store = StateStore
  import Hugepages
  import System
  import Refinement
  import CommitRuns
  import Progress

  /** What a client is told; CPU sets travel as range strings. */
  datatype Response = Response(
    allocatedCores: string, sharedCpus: string, policy: Option<Policy>, total: nat, remaining: nat)

  ghost function Encode(result: Result<Outcome, Error>): Result<Response, Error> {
    match result
    case Ok(o) => Ok(Response(Print(o.reply.granted), Print(o.reply.shared), o.reply.policy, o.reply.total, o.reply.remaining))
    case Err(e) => Err(e)
  }

  ghost function Left(result: Result<Outcome, Error>, book: Book): Book {
    match result case Ok(o) => o.book case Err(_) => book
  }

  /** `_allocate_cores`. */
  method AllocateCores(
    db: DB.AllocationsDB, service: string, pool: Pool, policy: Option<Policy>, count: int,
    host: Host, configured: set<nat>, eligible: set<nat>) returns (r: Result<Response, Error>)
    requires db.Valid()
    modifies db
    ensures db.Valid()
    ensures var result := HandleCores(old(db.Book()), service, pool, policy, count, host, configured, eligible);
            r == Encode(result) && db.Book() == Left(result, old(db.Book()))
  {
    hide Fields, Decode, Print, Cpus, ParseCpuRanges, Count, Ledger.Release, Claimed, ClaimedIn;
    RoundTrip({});
    CpusOfPrint(eligible);
    if db.PoolConflict(service, pool) {
      return Err(WrongPool);
    }
    var eligibleText := Print(eligible);
    if count == -1 {
      var removed := db.RemoveAllocation(service, pool);
      var free := db.Available(eligible);
      return Ok(Response("", Print(free), None, |eligible|, |free|));
    }
    if !(db.ClaimedCpus(pool) <= configured) {
      return Err(PoolExcludesClaims);
    }
    if eligible == {} {
      return Err(NoCpusAvailable);
    }
    var granted := db.AllocateCount(service, count, eligibleText, policy, pool, host.recheck, host.siblings);
    if granted.Err? {
      return Err(granted.error);
    }
    var shared, dedicated := granted.value.0, granted.value.1;
    r := Ok(Response(dedicated, shared, db.PreemptionPolicy(service), |eligible|, |db.Available(eligible)|));
  }

  /** `_allocate_numa_cores`. */
  method AllocateNumaCores(
    db: DB.AllocationsDB, service: string, pool: Pool, policy: Option<Policy>, node: nat, count: int,
    host: Host, configured: set<nat>, eligible: set<nat>) returns (r: Result<Response, Error>)
    requires db.Valid()
    modifies db
    ensures db.Valid()
    ensures var result := HandleNuma(old(db.Book()), service, pool, policy, node, count, host, configured, eligible);
            r == Encode(result) && db.Book() == Left(result, old(db.Book()))
  {
    hide Fields, Decode, Print, Cpus, ParseCpuRanges, Numa, Claimed, ClaimedIn;
    RoundTrip({});
    if count == 0 {
      return Err(ZeroCount);
    }
    if db.PoolConflict(service, pool) {
      return Err(WrongPool);
    }
    if host.topology.None? {
      return Err(TopologyUnavailable);
    }
    var topology := host.topology.value;
    if node !in topology {
      return Err(NoSuchNode);
    }
    if count != -1 {
      if !(db.ClaimedCpus(pool) <= configured) {
        return Err(PoolExcludesClaims);
      }
      if eligible == {} {
        return Err(NoCpusAvailable);
      }
      if topology[node] * eligible == {} {
        return Err(NodeNotEligible);
      }
      if |topology[node] * eligible| < count {
        return Err(NodeTooSmall);
      }
    }
    var granted := db.AllocateNumaCores(service, topology, node, count, policy, pool, eligible, host.recheck,
      host.siblings);
    if granted.Err? {
      return Err(granted.error);
    }
    ghost var grant := Numa(old(db.Book()), service, topology[node], count, eligible, policy, pool, host.recheck,
      host.siblings).value;
    RoundTrip(grant.first);
    NothingGranted(old(db.Book()), service, topology[node], count, eligible, policy, pool, host);
    if count != -1 && granted.value.0 == "" {
      return Err(HeldByOthers);
    }
    r := Ok(Response(granted.value.0, "", db.PreemptionPolicy(service), |eligible|, |db.Available(eligible)|));
  }

  /** An allocation that hands out nothing has left the ledger alone, so the handler's late error does too. */
  lemma NothingGranted(
    book: Book, service: string, node: set<nat>, count: int, eligible: set<nat>, policy: Option<Policy>, pool: Pool,
    host: Host)
    requires Numa(book, service, node, count, eligible, policy, pool, host.recheck, host.siblings).Ok?
    ensures var grant := Numa(book, service, node, count, eligible, policy, pool, host.recheck, host.siblings).value;
            count != -1 && grant.first == {} ==> grant.book == book
  {
    hide NumaChoice, NumaGrant, Subtract, Unavailable;
  }

  /** The three handlers: pool and capacity first, then the operation on the candidate. */
  method Handle(db: DB.AllocationsDB, request: Request, host: Host) returns (r: Result<Response, Error>)
    requires db.Valid()
    modifies db
    ensures db.Valid()
    ensures r == Encode(Execute(request, host, old(db.Book())))
    ensures db.Book() == Left(Execute(request, host, old(db.Book())), old(db.Book()))
  {
    hide Fields, Decode, Print, HandleCores, HandleNuma;
    var configured := Configured(host, request.pool);
    if configured.None? {
      return Err(PoolNotConfigured);
    }
    var eligible := Eligible(configured.value, host.online, Releases(request));
    if eligible.None? {
      return Err(OnlineUnreadable);
    }
    match request
    case AllocateCores(service, pool, policy, count) =>
      r := AllocateCores(db, service, pool, policy, count, host, configured.value, eligible.value);
    case AllocatePercent(service, pool, policy, percent) =>
      var count := if percent == -1 || percent == 0 then -1 else PercentSize(|eligible.value|, percent);
      r := AllocateCores(db, service, pool, policy, count, host, configured.value, eligible.value);
    case AllocateNuma(service, pool, policy, node, count) =>
      r := AllocateNumaCores(db, service, pool, policy, node, count, host, configured.value, eligible.value);
  }

  /** A client that parses its response reads just what the outcome says. */
  lemma ResponseReads(request: Request, host: Host, book: Book, response: Response)
    requires Encode(Execute(request, host, book)) == Ok(response)
    ensures var reply := Execute(request, host, book).value.reply;
            && ParseCpuRanges(response.allocatedCores) == Some(reply.granted)
            && ParseCpuRanges(response.sharedCpus) == Some(reply.shared)
            && response.policy == reply.policy && response.total == reply.total && response.remaining == reply.remaining
  {
    hide Execute, Print, ParseCpuRanges;
    RoundTrip(Execute(request, host, book).value.reply.granted);
    RoundTrip(Execute(request, host, book).value.reply.shared);
  }

  // ---------- The transaction ----------

  /** The state file: the ledger section in its stored form, and the hugepage section. */
  datatype Saved = Saved(ledger: Snapshot, huge: Hugepages.Records)

  /** What the stored form stands for. */
  function Meaning(saved: Saved): System.Sections {
    System.Sections(Decode(saved.ledger), saved.huge)
  }

  ghost predicate Sane(saved: Saved) { Consistent(saved.ledger) }

  datatype Failure = Rejected(error: Error) | StorageFailed

  /** One call of the store that has just entered the exclusive lock to run a transaction. */
  ghost predicate Fresh(store: Store.StateStore<Saved>)
    reads store
  {
    store.Valid() && store.configs == [store.Here()] && store.phase == CommitProtocol.Entered(CommitProtocol.Writing)
  }

  /** The state file holds what it held before, or exactly the job's result; a result that a power
      loss could still take back is behind the durable latch. */
  ghost predicate OldOrDone(before: CommitProtocol.Disk<Saved>, after: CommitProtocol.Disk<Saved>, job: System.Job) {
    || after.installed.contents == before.installed.contents
    || (&& before.installed.contents.Intact? && after.installed.contents.Intact?
        && System.Run(job, Meaning(before.installed.contents.state)) == Some(Meaning(after.installed.contents.state))
        && (CommitProtocol.Settled(after) || CommitProtocol.LatchDurable(after)))
  }

  /** What holds of the store after the transaction of a job, however it ended: the calls it made
      walk through the protocol, the job's meaning is what it wrote, nothing else can be installed,
      and every file that can be found from now on loads without corruption. */
  ghost predicate Ran(store: Store.StateStore<Saved>, job: System.Job)
    reads store
  {
    && store.Valid() && store.phase.Finished?
    && Refinement.Executes(System.Run, job, Meaning, store.configs, store.answers)
    && OldOrDone(store.configs[0].disk, store.disk, job)
    && Refinement.DiskIs(Sane, store.disk)
  }

  lemma RanAfter(store: Store.StateStore<Saved>, job: System.Job)
    requires store.Valid() && store.phase.Finished?
    requires store.configs[0].phase == CommitProtocol.Entered(CommitProtocol.Writing)
    requires Refinement.DiskIs(Sane, store.configs[0].disk)
    requires Refinement.Executes(System.Run, job, Meaning, store.configs, store.answers)
    requires (|store.answers| > 2 && store.configs[2].phase.Loaded? && store.answers[2].update.Some?) ==>
      Sane(store.answers[2].update.value)
    ensures Ran(store, job)
  {
    hide Refinement.DiskIs, Sane, Meaning, System.Run, OldOrDone;
    Refinement.WalkKeepsGood(Sane, store.configs, store.answers, |store.answers|);
    OldOrDoneAfter(store.configs, store.answers, job);
  }

  lemma OldOrDoneAfter(
    configs: seq<CommitProtocol.Config<Saved>>, answers: seq<CommitProtocol.Answer<Saved>>, job: System.Job)
    requires |configs| == |answers| + 1
    requires CommitProtocol.Walk(configs, answers) && CommitProtocol.Guarded(configs[0].disk)
    requires configs[0].phase == CommitProtocol.Entered(CommitProtocol.Writing)
    requires Refinement.Executes(System.Run, job, Meaning, configs, answers)
    ensures OldOrDone(configs[0].disk, configs[|answers|].disk, job)
  {
    hide Meaning, System.Run, CommitProtocol.Advance, CommitProtocol.Walk, CommitProtocol.LatchDurable,
      CommitProtocol.Settled;
    Refinement.FreshPhase(configs[0]);
    CommitProtocol.WalkKeeps(configs, answers, |answers|);
    Refinement.WalkInstalls(configs, answers, |answers|);
    if |configs| > 2 && configs[2].phase.Loaded? {
      Refinement.LooksFirst(configs, answers, 2);
      CommitProtocol.WalkKeeps(configs, answers, 2);
    }
  }

  /** The state the update function was called on; None when the transaction did not get that far. */
  ghost function Base(store: Store.StateStore<Saved>): Option<Saved>
    reads store
  {
    if |store.configs| > 2 && store.configs[2].phase.Loaded? then Some(store.configs[2].phase.base) else None
  }

  ghost predicate Committed(store: Store.StateStore<Saved>)
    reads store
  {
    store.phase.Finished? && store.phase.end.Committed?
  }

  /** Neither latch stood, the state was readable, and no system call failed. */
  ghost predicate Healthy(store: Store.StateStore<Saved>)
    reads store
  {
    |store.configs| > 0 && Progress.Unblocked(store.configs[0]) && Progress.NoFailures(store.answers)
  }

  lemma HealthyOutcome(store: Store.StateStore<Saved>)
    requires store.Valid() && store.phase.Finished? && Healthy(store)
    requires store.configs[0].phase == CommitProtocol.Entered(CommitProtocol.Writing)
    ensures Base(store).Some? && |store.answers| > 2
    ensures store.answers[2].update.Some? ==> Committed(store)
  {
    hide Progress.Unblocked, Progress.NoFailures;
    Progress.HealthyWriteCommitted(store.configs, store.answers);
  }

  /** What the request comes to on a saved state. */
  ghost function OnState(request: Request, host: Host, saved: Saved): Result<Outcome, Error> {
    Execute(request, host, Decode(saved.ledger))
  }

  /** `AllocationsDB.transaction` around a handler, inside the lock: a private candidate is
      loaded from the file, changed, saved, committed, and only then published to `db`. Nothing
      depends on what `db` held before. After a failure `db` is read again; `reread` is what that
      later read finds, None when it fails too. */
  method Transaction(
    db: DB.AllocationsDB, store: Store.StateStore<Saved>, request: Request, host: Host, reread: Option<Saved>)
    returns (r: Result<Response, Failure>)
    requires Fresh(store) && Refinement.DiskIs(Sane, store.disk)
    modifies db, store
    ensures old(store.configs) <= store.configs && Ran(store, System.CpuJob(request, host))
    ensures r.Ok? ==>
              && old(store.disk).installed.contents.Intact? && store.disk.installed.contents.Intact?
              && var before, after := old(store.disk).installed.contents.state, store.disk.installed.contents.state;
              && System.Run(System.CpuJob(request, host), Meaning(before)) == Some(Meaning(after))
              && Encode(Execute(request, host, Decode(before.ledger))) == Ok(r.value)
              && store.phase == CommitProtocol.Finished(CommitProtocol.Committed(after))
              && CommitProtocol.Settled(store.disk) && !store.disk.latch
              && Sane(after) && db.Valid() && db.Snap() == after.ledger
    ensures r.Err? && r.error.Rejected? ==>
              && store.disk == old(store.disk) && old(store.disk).installed.contents.Intact?
              && Execute(request, host, Decode(old(store.disk).installed.contents.state.ledger)) == Err(r.error.error)
    ensures r.Ok? <==> Committed(store)
    ensures Base(store).Some? ==> old(store.disk).installed.contents == CommitProtocol.Intact(Base(store).value)
    ensures r.Err? && r.error.Rejected? <==> Base(store).Some? && OnState(request, host, Base(store).value).Err?
    ensures Healthy(store) ==>
              old(store.disk).installed.contents.Intact?
              && (r.Ok? <==> OnState(request, host, old(store.disk).installed.contents.state).Ok?)
    ensures old(store.latched) || old(store.disk).latch ==> r == Err(StorageFailed)
    ensures OldOrDone(old(store.disk), store.disk, System.CpuJob(request, host))
    ensures r.Err? && reread.None? ==> unchanged(db)
    ensures r.Err? && reread.Some? && Sane(reread.value) ==> db.Valid() && db.Snap() == reread.value.ledger
  {
    var answered := Attempt(store, request, host);
    match answered
    case Ok(answer) =>
      var published := db.LoadSnapshot(answer.1);
      r := Ok(answer.0);
    case Err(failure) =>
      if reread.Some? {
        var reloaded := db.LoadSnapshot(reread.value.ledger);
      }
      r := Err(failure);
  }

  /** The entry points choose the pool before they take the lock; an unconfigured pool is refused
      without touching the store or the database. */
  method HandleRequest(
    db: DB.AllocationsDB, store: Store.StateStore<Saved>, request: Request, host: Host, reread: Option<Saved>)
    returns (r: Result<Response, Failure>)
    requires Fresh(store) && Refinement.DiskIs(Sane, store.disk)
    modifies db, store
    ensures Configured(host, request.pool).None? ==>
              r == Err(Rejected(PoolNotConfigured)) && unchanged(db) && unchanged(store)
    ensures OldOrDone(old(store.disk), store.disk, System.CpuJob(request, host))
    ensures Configured(host, request.pool).Some? ==> Ran(store, System.CpuJob(request, host))
    ensures r.Ok? <==> Committed(store)
    ensures Configured(host, request.pool).Some? ==>
              (r.Err? && r.error.Rejected? <==> Base(store).Some? && OnState(request, host, Base(store).value).Err?)
    ensures Healthy(store) && old(store.disk).installed.contents.Intact? ==>
              (r.Ok? <==> OnState(request, host, old(store.disk).installed.contents.state).Ok?)
    ensures Configured(host, request.pool).Some? && (old(store.latched) || old(store.disk).latch) ==>
              r == Err(StorageFailed)
    ensures r.Ok? ==>
              && old(store.disk).installed.contents.Intact? && store.disk.installed.contents.Intact?
              && Encode(Execute(request, host, Decode(old(store.disk).installed.contents.state.ledger))) == Ok(r.value)
              && db.Valid() && db.Snap() == store.disk.installed.contents.state.ledger
  {
    hide Fields, Decode, Execute, Print, Ran, OldOrDone;
    if Configured(host, request.pool).None? {
      NothingInstalled(store.disk, System.CpuJob(request, host));
      UnconfiguredIsRefused(request, host);
      return Err(Rejected(PoolNotConfigured));
    }
    r := Transaction(db, store, request, host, reread);
  }

  lemma UnconfiguredIsRefused(request: Request, host: Host)
    requires Configured(host, request.pool).None?
    ensures forall saved :: OnState(request, host, saved).Err?
  {
    hide HandleCores, HandleNuma;
  }

  lemma NothingInstalled(disk: CommitProtocol.Disk<Saved>, job: System.Job)
    ensures OldOrDone(disk, disk, job)
  {
  }

  /** The part inside the lock: the response and the committed ledger. */
  method Attempt(store: Store.StateStore<Saved>, request: Request, host: Host)
    returns (r: Result<(Response, Snapshot), Failure>)
    requires Fresh(store) && Refinement.DiskIs(Sane, store.disk)
    modifies store
    ensures old(store.configs) <= store.configs && Ran(store, System.CpuJob(request, host))
    ensures r.Ok? ==>
              && old(store.disk).installed.contents.Intact? && store.disk.installed.contents.Intact?
              && var before, after := old(store.disk).installed.contents.state, store.disk.installed.contents.state;
              && System.Run(System.CpuJob(request, host), Meaning(before)) == Some(Meaning(after))
              && Encode(Execute(request, host, Decode(before.ledger))) == Ok(r.value.0)
              && store.phase == CommitProtocol.Finished(CommitProtocol.Committed(after))
              && CommitProtocol.Settled(store.disk) && !store.disk.latch
              && Sane(after) && r.value.1 == after.ledger
    ensures r.Err? && r.error.Rejected? ==>
              && store.disk == old(store.disk) && old(store.disk).installed.contents.Intact?
              && Execute(request, host, Decode(old(store.disk).installed.contents.state.ledger)) == Err(r.error.error)
    ensures r.Ok? <==> Committed(store)
    ensures Base(store).Some? ==> old(store.disk).installed.contents == CommitProtocol.Intact(Base(store).value)
    ensures r.Err? && r.error.Rejected? <==> Base(store).Some? && OnState(request, host, Base(store).value).Err?
    ensures Healthy(store) ==>
              old(store.disk).installed.contents.Intact?
              && (r.Ok? <==> OnState(request, host, old(store.disk).installed.contents.state).Ok?)
    ensures old(store.latched) || old(store.disk).latch ==> r == Err(StorageFailed)
    ensures OldOrDone(old(store.disk), store.disk, System.CpuJob(request, host))
  {
    hide Fields, Decode, Execute, Print, Ran, OldOrDone, Healthy, Meaning, System.Run;
    ghost var job := System.CpuJob(request, host);
    var base := store.Load();
    if base.None? {
      RanAfter(store, job);
      RanIsOldOrDone(store, job);
      if Healthy(store) { HealthyOutcome(store); }
      return Err(StorageFailed);
    }
    r := Complete(store, base.value, request, host);
  }

  /** From the loaded state on: the handler runs on a private candidate, which is then committed. */
  method Complete(store: Store.StateStore<Saved>, base: Saved, request: Request, host: Host)
    returns (r: Result<(Response, Snapshot), Failure>)
    requires store.Valid() && |store.answers| == 2 && store.phase == CommitProtocol.Loaded(base) && Sane(base)
    requires store.configs[0].phase == CommitProtocol.Entered(CommitProtocol.Writing)
    requires store.configs[0].disk == store.disk && store.disk.installed.contents == CommitProtocol.Intact(base)
    requires Refinement.DiskIs(Sane, store.configs[0].disk)
    modifies store
    ensures old(store.configs) <= store.configs && Ran(store, System.CpuJob(request, host))
    ensures r.Ok? ==>
              && old(store.disk).installed.contents.Intact? && store.disk.installed.contents.Intact?
              && var before, after := old(store.disk).installed.contents.state, store.disk.installed.contents.state;
              && System.Run(System.CpuJob(request, host), Meaning(before)) == Some(Meaning(after))
              && Encode(Execute(request, host, Decode(before.ledger))) == Ok(r.value.0)
              && store.phase == CommitProtocol.Finished(CommitProtocol.Committed(after))
              && CommitProtocol.Settled(store.disk) && !store.disk.latch
              && Sane(after) && r.value.1 == after.ledger
    ensures r.Err? && r.error.Rejected? ==>
              && store.disk == old(store.disk) && old(store.disk).installed.contents.Intact?
              && Execute(request, host, Decode(old(store.disk).installed.contents.state.ledger)) == Err(r.error.error)
    ensures r.Ok? <==> Committed(store)
    ensures Base(store).Some? ==> old(store.disk).installed.contents == CommitProtocol.Intact(Base(store).value)
    ensures r.Err? && r.error.Rejected? <==> Base(store).Some? && OnState(request, host, Base(store).value).Err?
    ensures Healthy(store) ==>
              old(store.disk).installed.contents.Intact?
              && (r.Ok? <==> OnState(request, host, old(store.disk).installed.contents.state).Ok?)
    ensures OldOrDone(old(store.disk), store.disk, System.CpuJob(request, host))
  {
    hide Fields, Decode, Execute, Print, Ran, OldOrDone, Healthy, Meaning, System.Run;
    ghost var job := System.CpuJob(request, host);
    RunIs(request, host, base);
    var candidate := new DB.AllocationsDB();
    var loaded := candidate.LoadSnapshot(base.ledger);
    var response := Handle(candidate, request, host);
    if response.Err? {
      var aborted := store.Store(None);
      RanIsOldOrDone(store, job) by { RanAfter(store, job); }
      RanAfter(store, job);
      return Err(Rejected(response.error));
    }
    var after := base.(ledger := candidate.Snap());
    SavedIsConsistent(candidate);
    MeaningIs(after);
    var committed := store.Store(Some(after));
    RanAfter(store, job);
    RanIsOldOrDone(store, job);
    if Healthy(store) { HealthyOutcome(store); }
    if !committed {
      return Err(StorageFailed);
    }
    r := Ok((response.value, after.ledger));
  }

  lemma MeaningIs(saved: Saved)
    ensures Meaning(saved) == System.Sections(Decode(saved.ledger), saved.huge)
  {
  }

  lemma RunIs(request: Request, host: Host, before: Saved)
    ensures System.Run(System.CpuJob(request, host), Meaning(before)) ==
            match OnState(request, host, before)
            case Ok(outcome) => Some(System.Sections(outcome.book, before.huge))
            case Err(_) => None
  {
    hide Execute, Decode;
  }

  lemma SavedIsConsistent(db: DB.AllocationsDB)
    requires db.Valid()
    ensures Consistent(db.Snap())
  {
  }

  /** The module state of hugepages_db.py: the records as last read or committed. */
  class HugepagesDB {
    var allocations: Hugepages.Records

    constructor ()
      ensures allocations == map[]
    {
      allocations := map[];
    }
  }

  /** `hugepages_db._transaction` around an upsert or a removal: a private candidate is changed and
      committed, and only then published. After a failure the records are read again; `reread` is
      what that later read finds, None when it fails too. `changed` says whether the records differ. */
  method HugepageTransaction(
    db: HugepagesDB, store: Store.StateStore<Saved>, op: Hugepages.Op, reread: Option<Saved>)
    returns (ok: bool, changed: bool)
    requires Fresh(store) && Refinement.DiskIs(Sane, store.disk)
    modifies db, store
    ensures old(store.configs) <= store.configs && Ran(store, System.HugeJob(op))
    ensures ok <==> Committed(store)
    ensures Healthy(store) ==> ok
    ensures old(store.latched) || old(store.disk).latch ==> !ok
    ensures OldOrDone(old(store.disk), store.disk, System.HugeJob(op))
    ensures ok ==>
              && old(store.disk).installed.contents.Intact?
              && var before := old(store.disk).installed.contents.state;
              && store.disk.installed.contents
                 == CommitProtocol.Intact(Saved(before.ledger, Hugepages.Apply(op, before.huge)))
              && CommitProtocol.Settled(store.disk) && !store.disk.latch
              && db.allocations == Hugepages.Apply(op, before.huge)
              && (changed <==> Hugepages.Apply(op, before.huge) != before.huge)
    ensures !ok ==> db.allocations == if reread.Some? then reread.value.huge else old(db.allocations)
  {
    var candidate := AttemptHugepages(store, op);
    ok, changed := candidate.Some?, false;
    if ok {
      db.allocations, changed := candidate.value.0, candidate.value.1;
    } else if reread.Some? {
      db.allocations := reread.value.huge;
    }
  }

  /** The part inside the lock: the committed records, and whether they changed. */
  method AttemptHugepages(store: Store.StateStore<Saved>, op: Hugepages.Op)
    returns (r: Option<(Hugepages.Records, bool)>)
    requires Fresh(store) && Refinement.DiskIs(Sane, store.disk)
    modifies store
    ensures old(store.configs) <= store.configs && Ran(store, System.HugeJob(op))
    ensures r.Some? <==> Committed(store)
    ensures Healthy(store) ==> r.Some?
    ensures old(store.latched) || old(store.disk).latch ==> r.None?
    ensures OldOrDone(old(store.disk), store.disk, System.HugeJob(op))
    ensures r.Some? ==>
              && old(store.disk).installed.contents.Intact?
              && var before := old(store.disk).installed.contents.state;
              && r.value.0 == Hugepages.Apply(op, before.huge)
              && (r.value.1 <==> r.value.0 != before.huge)
              && store.disk.installed.contents == CommitProtocol.Intact(Saved(before.ledger, r.value.0))
              && CommitProtocol.Settled(store.disk) && !store.disk.latch
  {
    hide Hugepages.Apply, Decode, Ran, OldOrDone, Healthy;
    ghost var job := System.HugeJob(op);
    var base := store.Load();
    if base.None? {
      RanAfter(store, job);
      RanIsOldOrDone(store, job);
      if Healthy(store) { HealthyOutcome(store); }
      return None;
    }
    var records := Hugepages.Apply(op, base.value.huge);
    var after := base.value.(huge := records);
    var ok := store.Store(Some(after));
    RanAfter(store, job);
    RanIsOldOrDone(store, job);
    if Healthy(store) { HealthyOutcome(store); }
    r := if ok then Some((records, records != base.value.huge)) else None;
  }

  datatype HugeReply = Refused | Failed | Recorded | Removed(existed: bool)

  /** `handle_allocate_hugepages`: the check on two earlier readings, then the transaction. A
      success leaves the requested number for the key, or nothing after a removal, and every other
      record as the transaction found it. */
  method HandleHugepages(
    db: HugepagesDB, store: Store.StateStore<Saved>, seen: Hugepages.Records, own: Hugepages.Records, service: string,
    node: nat, size: nat, requested: Hugepages.Requested, capacity: Option<Hugepages.Capacity>, reread: Option<Saved>)
    returns (r: HugeReply)
    requires Fresh(store) && Refinement.DiskIs(Sane, store.disk)
    modifies db, store
    ensures r.Refused? <==> Hugepages.Check(seen, own, service, node, size, requested, capacity).None?
    ensures r.Refused? ==> unchanged(db) && unchanged(store)
    ensures (r.Recorded? || r.Removed?) <==> Committed(store)
    ensures !r.Refused? && Healthy(store) ==> Committed(store)
    ensures r.Removed? ==> requested == -1
    ensures r.Recorded? ==> requested != -1
    ensures Committed(store) ==>
              && old(store.disk).installed.contents.Intact? && store.disk.installed.contents.Intact?
              && var before, after := old(store.disk).installed.contents.state, store.disk.installed.contents.state;
              && after.ledger == before.ledger && db.allocations == after.huge
              && Hugepages.Sets(before.huge, after.huge, service, node, size, requested)
              && (r.Removed? ==> (r.existed <==> Hugepages.Lookup(before.huge, service, node, size).Some?))
  {
    hide Hugepages.Check, Hugepages.Lookup, Hugepages.Apply, Hugepages.Sets, Decode, Ran, OldOrDone, Healthy;
    var op := Hugepages.CheckRequest(seen, own, service, node, size, requested, capacity);
    if op.None? {
      return Refused;
    }
    ghost var contents := store.disk.installed.contents;
    var done, changed := HugepageTransaction(db, store, op.value, reread);
    if !done {
      return Failed;
    }
    if requested == -1 {
      Hugepages.RemovalChanges(seen, own, contents.state.huge, service, node, size, capacity);
      r := Removed(changed);
    } else {
      r := Recorded;
    }
  }

  lemma RanIsOldOrDone(store: Store.StateStore<Saved>, job: System.Job)
    requires Ran(store, job)
    ensures OldOrDone(store.configs[0].disk, store.disk, job)
  {
  }

  // ---------- Composition ----------

  type AbstractWorld = CommitProtocol.World<System.Job, System.Sections>
  type AbstractStep = CommitProtocol.Step<System.Job, System.Sections>

  /** The world in which the store's call has just entered the lock. */
  ghost predicate EnteredIn(w: AbstractWorld, store: Store.StateStore<Saved>, task: CommitProtocol.Task<System.Job>)
    reads store
  {
    && store.Valid() && store.configs[0].phase == CommitProtocol.Entered(CommitProtocol.KindOf(task))
    && w.holder.Some? && w.holder.value.task == task
    && CommitProtocol.ConfigOf(w, w.holder.value) == Refinement.ReadConfig(Meaning, store.configs[0])
  }

  /** The world has followed the store's call. */
  ghost predicate ReachedIn(w: AbstractWorld, store: Store.StateStore<Saved>)
    reads store
  {
    w.holder.Some? && CommitProtocol.ConfigOf(w, w.holder.value) == Refinement.ReadConfig(Meaning, store.Here())
  }

  /** Every transaction that the code runs, committed, rejected or failed anywhere, is a run of
      the abstract system from any world with that disk: so all that is proved of runs holds of it. */
  lemma TransactionIsRun(store: Store.StateStore<Saved>, job: System.Job, w: AbstractWorld)
    returns (run: seq<AbstractWorld>, steps: seq<AbstractStep>)
    requires Ran(store, job) && EnteredIn(w, store, CommitProtocol.Write(job))
    ensures CommitRuns.IsRun(System.Run, run, steps) && run[0] == w && ReachedIn(run[|steps|], store)
  {
    hide System.Run, Meaning, CommitProtocol.Advance, Refinement.ReadConfig, CommitProtocol.Guarded,
      CommitProtocol.PhaseInv;
    run, steps := Refinement.WalkIsRun(System.Run, CommitProtocol.Write(job), Meaning, store.configs, store.answers, w);
    Refinement.FollowsEnd(System.Run, Meaning, store.configs, store.answers, run, steps);
  }

  /** So is every read and every recovery. */
  lemma OtherCallIsRun(store: Store.StateStore<Saved>, task: CommitProtocol.Task<System.Job>, w: AbstractWorld)
    returns (run: seq<AbstractWorld>, steps: seq<AbstractStep>)
    requires !task.Write? && EnteredIn(w, store, task)
    ensures CommitRuns.IsRun(System.Run, run, steps) && run[0] == w && ReachedIn(run[|steps|], store)
  {
    hide System.Run, Meaning, CommitProtocol.Advance, Refinement.ReadConfig, CommitProtocol.Guarded,
      CommitProtocol.PhaseInv;
    run, steps := Refinement.WalkIsRun(System.Run, task, Meaning, store.configs, store.answers, w);
    Refinement.FollowsEnd(System.Run, Meaning, store.configs, store.answers, run, steps);
  }
}
