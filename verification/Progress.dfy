/** What the commit protocol achieves when calls succeed, and how quietly it gives up when they do
    not. The disk a call starts from need not satisfy any invariant here. */
module Progress {
  import opened Wrappers
  import opened CommitProtocol
  import opened Refinement

  predicate Succeeds<S>(answer: Answer<S>) { answer.io.Done? }

  /** No system call failed. */
  ghost predicate NoFailures<S>(answers: seq<Answer<S>>) {
    forall i :: 0 <= i < |answers| ==> Succeeds(answers[i])
  }

  /** No system call failed, except possibly the rename. */
  ghost predicate OnlyRenameFails<S>(configs: seq<Config<S>>, answers: seq<Answer<S>>) {
    |configs| > |answers| && forall i :: 0 <= i < |answers| ==> Succeeds(answers[i]) || configs[i].phase.Marked?
  }

  /** Nothing stands in the way of a write. */
  ghost predicate Unblocked<S>(c: Config<S>) { !c.latched && !c.disk.latch && c.disk.installed.contents.Intact? }

  // ---------- Writing ----------

  /** Where a write stands that met no failure but possibly at the rename: `start` is what the state
      file held, `result` what the update function returned. */
  ghost predicate OnTrack<S>(c: Config<S>, start: Contents<S>, result: Option<S>) {
    match c.phase
    case Entered(kind) => kind == Writing && Unblocked(c) && c.disk.installed.contents == start
    case Healthy => Unblocked(c) && c.disk.installed.contents == start
    case Loaded(base) => Unblocked(c) && c.disk.installed.contents == start == Intact(base)
    case Updated(next) => Unblocked(c) && c.disk.installed.contents == start && result == Some(next)
    case Ready(next) => c.disk.installed.contents == start && result == Some(next)
    case TempWritten(next) => c.disk.installed.contents == start && result == Some(next)
    case TempSynced(next) => c.disk.installed.contents == start && result == Some(next)
    case MarkWritten(next) => c.disk.installed.contents == start && result == Some(next)
    case MarkSynced(next) => c.disk.installed.contents == start && result == Some(next)
    case Marked(next) => c.disk.installed.contents == start && result == Some(next)
    case Renamed(next) => result == Some(next)
    case Clearing(reason) => Excused(c, start, result, reason)
    case Truncated(reason) => Excused(c, start, result, reason) && !c.disk.latch
    case ClearSynced(reason) => Excused(c, start, result, reason) && !c.disk.latch && c.disk.latchOutcomes == {false}
    case Finished(end) =>
      && !c.latched && !c.disk.latch
      && (if result.None? then end == Raised && c.disk.installed.contents == start
          else end == Committed(result.value) || (end == Raised && c.disk.installed.contents == start))
    case _ => false
  }

  /** The latch is cleared because the result is durable, or because the old state was never replaced. */
  ghost predicate Excused<S>(c: Config<S>, start: Contents<S>, result: Option<S>, reason: Reason<S>) {
    || (reason.Commit? && result == Some(reason.state))
    || (reason.Unwind? && result.Some? && c.disk.installed.contents == start)
  }

  lemma TrackGoesOn<S>(c: Config<S>, io: Io, update: Option<S>, start: Contents<S>, result: Option<S>)
    requires OnTrack(c, start, result) && (io.Done? || c.phase.Marked?)
    requires c.phase.Loaded? ==> update == result
    ensures OnTrack(Advance(c, io, update), start, result)
    ensures c.phase.Entered? ==> Advance(c, io, update).phase.Healthy?
    ensures c.phase.Healthy? ==> Advance(c, io, update).phase.Loaded?
  {
  }

  /** Where nothing blocks the write and no call fails but possibly the rename, the write loads the
      state, and in the end commits its result or, after a failed rename, has taken its latch back
      and left the old state. */
  lemma {:induction false} WriteStaysOnTrack<S>(configs: seq<Config<S>>, answers: seq<Answer<S>>, i: nat)
    requires Walk(configs, answers) && i < |configs| && OnlyRenameFails(configs, answers)
    requires configs[0].phase == Entered(Writing) && Unblocked(configs[0])
    ensures OnTrack(configs[i], configs[0].disk.installed.contents, ResultOf(configs, answers))
    ensures i == 1 ==> configs[i].phase.Healthy?
    ensures i == 2 ==> configs[i].phase.Loaded?
  {
    hide Advance, Unblocked;
    if i == 0 {
      Starts(configs[0], ResultOf(configs, answers));
    } else {
      hide OnTrack;
      WriteStaysOnTrack(configs, answers, i - 1);
      UpdatesOnce(configs, answers, i - 1);
      assert Succeeds(answers[i - 1]) || configs[i - 1].phase.Marked?;
      TrackGoesOn(configs[i - 1], answers[i - 1].io, answers[i - 1].update, configs[0].disk.installed.contents,
        ResultOf(configs, answers));
      assert configs[i - 1 + 1] == Advance(configs[i - 1], answers[i - 1].io, answers[i - 1].update);
    }
  }

  lemma Starts<S>(c: Config<S>, result: Option<S>)
    requires c.phase == Entered(Writing) && Unblocked(c)
    ensures OnTrack(c, c.disk.installed.contents, result)
  {
  }

  /** Without the detour: a write that met no failure never unwinds. */
  ghost predicate NotUnwinding<S>(phase: Phase<S>, result: Option<S>) {
    match phase
    case Clearing(reason) => !reason.Unwind?
    case Truncated(reason) => !reason.Unwind?
    case ClearSynced(reason) => !reason.Unwind?
    case Finished(end) => result.Some? ==> end != Raised
    case _ => true
  }

  lemma {:induction false} NeverUnwinds<S>(configs: seq<Config<S>>, answers: seq<Answer<S>>, i: nat)
    requires Walk(configs, answers) && i < |configs| && NoFailures(answers)
    requires configs[0].phase == Entered(Writing) && Unblocked(configs[0])
    ensures NotUnwinding(configs[i].phase, ResultOf(configs, answers))
  {
    hide Advance, Unblocked;
    if i > 0 {
      hide OnTrack, NotUnwinding;
      NeverUnwinds(configs, answers, i - 1);
      assert OnlyRenameFails(configs, answers);
      WriteStaysOnTrack(configs, answers, i - 1);
      UpdatesOnce(configs, answers, i - 1);
      assert Succeeds(answers[i - 1]);
      NotUnwindingGoesOn(configs[i - 1], answers[i - 1].io, answers[i - 1].update, configs[0].disk.installed.contents,
        ResultOf(configs, answers));
      assert configs[i - 1 + 1] == Advance(configs[i - 1], answers[i - 1].io, answers[i - 1].update);
    }
  }

  lemma NotUnwindingGoesOn<S>(c: Config<S>, io: Io, update: Option<S>, start: Contents<S>, result: Option<S>)
    requires OnTrack(c, start, result) && io.Done? && NotUnwinding(c.phase, result)
    requires c.phase.Loaded? ==> update == result
    ensures NotUnwinding(Advance(c, io, update).phase, result)
  {
  }

  /** A write that nothing blocks and in which no call fails loads the state and, once it is
      finished, has committed whatever the update function returned. */
  lemma HealthyWriteCommitted<S>(configs: seq<Config<S>>, answers: seq<Answer<S>>)
    requires Walk(configs, answers) && NoFailures(answers)
    requires configs[0].phase == Entered(Writing) && Unblocked(configs[0])
    requires configs[|answers|].phase.Finished?
    ensures |configs| > 2 && configs[2].phase.Loaded? && |answers| > 2
    ensures match answers[2].update
            case Some(next) => configs[|answers|].phase == Finished(Committed(next))
            case None => configs[|answers|].phase == Finished(Raised)
  {
    hide Advance;
    assert OnlyRenameFails(configs, answers);
    WriteStaysOnTrack(configs, answers, |answers|);
    NeverUnwinds(configs, answers, |answers|);
    if |configs| > 2 { WriteStaysOnTrack(configs, answers, 2); }
  }

  /** A write whose rename fails, and nothing else, takes its latch back: the old state is installed
      and the next write is not blocked. */
  lemma FailedRenameUnwinds<S>(configs: seq<Config<S>>, answers: seq<Answer<S>>)
    requires Walk(configs, answers) && OnlyRenameFails(configs, answers)
    requires configs[0].phase == Entered(Writing) && Unblocked(configs[0])
    requires configs[|answers|].phase == Finished(Raised)
    ensures Unblocked(configs[|answers|])
    ensures configs[|answers|].disk.installed.contents == configs[0].disk.installed.contents
  {
    hide Advance;
    WriteStaysOnTrack(configs, answers, |answers|);
  }

  // ---------- Giving up early ----------

  ghost predicate Quiet<S>(c: Config<S>, start: Config<S>) {
    && c.latched == start.latched && c.disk.latch == start.disk.latch && c.disk.latchOutcomes
       == start.disk.latchOutcomes
    && c.disk.installed == start.disk.installed && c.disk.displaced == start.disk.displaced
  }

  ghost predicate BeforeMark<S>(phase: Phase<S>) {
    || (phase.Entered? && phase.kind == Writing) || phase.Healthy? || phase.Loaded? || phase.Updated? || phase.Ready?
    || phase.TempWritten?
  }

  lemma {:induction false} EarlySteps<S>(configs: seq<Config<S>>, answers: seq<Answer<S>>, i: nat)
    requires Walk(configs, answers) && i < |configs| && i <= 6 && configs[0].phase == Entered(Writing)
    ensures Quiet(configs[i], configs[0])
    ensures if i < 6 then BeforeMark(configs[i].phase) || configs[i].phase.Finished?
            else configs[i].phase.TempSynced? || configs[i].phase.Finished?
    ensures configs[i].phase.Finished? || (i == 0 ==> configs[i].phase.Entered?)
    ensures !configs[i].phase.Finished? ==>
              (i == 1 <==> configs[i].phase.Healthy?) && (i == 2 <==> configs[i].phase.Loaded?)
              && (i == 3 <==> configs[i].phase.Updated?) && (i == 4 <==> configs[i].phase.Ready?)
              && (i == 5 <==> configs[i].phase.TempWritten?)
  {
    if i > 0 {
      EarlySteps(configs, answers, i - 1);
      assert configs[i - 1 + 1] == Advance(configs[i - 1], answers[i - 1].io, answers[i - 1].update);
    }
  }

  /** A write that ends before the latch is set, because it was blocked, or reading, the update
      function or the temporary file failed, leaves state and latch exactly as they were. */
  lemma {:induction false} EarlyFailureIsQuiet<S>(configs: seq<Config<S>>, answers: seq<Answer<S>>, i: nat)
    requires Walk(configs, answers) && i < |configs| && configs[0].phase == Entered(Writing)
    requires |configs| > 6 ==> configs[6].phase.Finished?
    ensures Quiet(configs[i], configs[0])
  {
    if i <= 6 {
      EarlySteps(configs, answers, i);
    } else {
      EarlyFailureIsQuiet(configs, answers, i - 1);
      StaysFinished(configs, answers, 6, i - 1);
      assert configs[i - 1 + 1] == Advance(configs[i - 1], answers[i - 1].io, answers[i - 1].update);
    }
  }

  lemma {:induction false} StaysFinished<S>(configs: seq<Config<S>>, answers: seq<Answer<S>>, i: nat, j: nat)
    requires Walk(configs, answers) && i <= j < |configs| && configs[i].phase.Finished?
    ensures configs[j] == configs[i]
  {
    if i < j {
      StaysFinished(configs, answers, i, j - 1);
      assert configs[j - 1 + 1] == Advance(configs[j - 1], answers[j - 1].io, answers[j - 1].update);
    }
  }

  // ---------- Recovery and reading ----------

  /** Where a recovery stands, whatever the disk was like: `start` is what the state file held. */
  ghost predicate Recovers<S>(c: Config<S>, start: Contents<S>) {
    && c.disk.installed.contents == start
    && match c.phase
       case Entered(kind) => kind == Recovering
       case Inspected => start.Intact?
       case StateSynced => start.Intact? && c.disk.installed.synced
       case Clearing(reason) => reason.Recovery? && Sound(c.disk)
       case Truncated(reason) => reason.Recovery? && Sound(c.disk) && !c.disk.latch
       case ClearSynced(reason) => reason.Recovery? && Sound(c.disk) && !c.disk.latch && c.disk.latchOutcomes == {false}
       case Relatching => true
       case Finished(end) =>
         || end == Raised
         || (end == Recovered && Sound(c.disk) && !c.latched && !c.disk.latch && c.disk.latchOutcomes == {false})
       case _ => false
  }

  /** The state that the file holds cannot be lost. */
  ghost predicate Sound<S>(
    disk: Disk<S>) { disk.installed.contents.Intact? && disk.installed.synced && disk.displaced == {} }

  /** A recovery that returns has made the state it found durable and unblocked writes, even on a
      disk that nothing is known of, and never changes that state. */
  lemma {:induction false} RecoveryMakesDurable<S>(configs: seq<Config<S>>, answers: seq<Answer<S>>, i: nat)
    requires Walk(configs, answers) && i < |configs| && configs[0].phase == Entered(Recovering)
    ensures Recovers(configs[i], configs[0].disk.installed.contents)
  {
    if i > 0 {
      RecoveryMakesDurable(configs, answers, i - 1);
      assert configs[i - 1 + 1] == Advance(configs[i - 1], answers[i - 1].io, answers[i - 1].update);
      RecoversGoesOn(configs[i - 1], answers[i - 1].io, answers[i - 1].update, configs[0].disk.installed.contents);
    }
  }

  lemma RecoversGoesOn<S>(c: Config<S>, io: Io, update: Option<S>, start: Contents<S>)
    requires Recovers(c, start)
    ensures Recovers(Advance(c, io, update), start)
  {
  }

  lemma DoneStep<S>(configs: seq<Config<S>>, answers: seq<Answer<S>>, i: nat)
    requires Walk(configs, answers) && NoFailures(answers) && i < |answers|
    ensures configs[i + 1] == Advance(configs[i], Done, answers[i].update)
  {
    assert Succeeds(answers[i]);
  }

  /** One successful step of a recovery. */
  lemma RecoveryStep<S>(c: Config<S>, update: Option<S>)
    ensures var c' := Advance(c, Done, update);
            && (c.phase == Entered(Recovering) && c.disk.installed.contents.Intact? ==> c'.phase.Inspected?)
            && (c.phase.Inspected? ==> c'.phase.StateSynced?)
            && (c.phase.StateSynced? ==> c'.phase == Clearing(Recovery))
            && (c.phase == Clearing(Recovery) ==> c'.phase == Truncated(Recovery))
            && (c.phase == Truncated(Recovery) ==> c'.phase == ClearSynced(Recovery))
            && (c.phase == ClearSynced(Recovery) ==> c'.phase == Finished(Recovered))
  {
  }

  lemma RecoveryStepAt<S>(configs: seq<Config<S>>, answers: seq<Answer<S>>, i: nat)
    requires Walk(configs, answers) && NoFailures(answers) && i < |answers|
    ensures configs[i + 1] == Advance(configs[i], Done, answers[i].update)
    ensures var c, c' := configs[i], configs[i + 1];
            && (c.phase == Entered(Recovering) && c.disk.installed.contents.Intact? ==> c'.phase.Inspected?)
            && (c.phase.Inspected? ==> c'.phase.StateSynced?)
            && (c.phase.StateSynced? ==> c'.phase == Clearing(Recovery))
            && (c.phase == Clearing(Recovery) ==> c'.phase == Truncated(Recovery))
            && (c.phase == Truncated(Recovery) ==> c'.phase == ClearSynced(Recovery))
            && (c.phase == ClearSynced(Recovery) ==> c'.phase == Finished(Recovered))
  {
    hide Advance;
    DoneStep(configs, answers, i);
    RecoveryStep(configs[i], answers[i].update);
  }

  /** A recovery of a readable state in which no call fails completes in six calls. */
  lemma HealthyRecoveryCompletes<S>(configs: seq<Config<S>>, answers: seq<Answer<S>>)
    requires Walk(configs, answers) && |answers| >= 6 && NoFailures(answers)
    requires configs[0].phase == Entered(Recovering) && configs[0].disk.installed.contents.Intact?
    ensures configs[6].phase == Finished(Recovered)
  {
    hide NoFailures, Advance;
    RecoveryStepAt(configs, answers, 0);
    RecoveryStepAt(configs, answers, 1);
    RecoveryStepAt(configs, answers, 2);
    RecoveryStepAt(configs, answers, 3);
    RecoveryStepAt(configs, answers, 4);
    RecoveryStepAt(configs, answers, 5);
  }

  /** A read of a readable state that does not fail returns it, latch or not. */
  lemma HealthyReadReturns<S>(configs: seq<Config<S>>, answers: seq<Answer<S>>)
    requires Walk(configs, answers) && |answers| >= 1 && NoFailures(answers)
    requires configs[0].phase == Entered(Reading) && configs[0].disk.installed.contents.Intact?
    ensures configs[1].phase == Finished(Observed(configs[0].disk.installed.contents.state))
    ensures configs[1].disk == configs[0].disk
  {
    DoneStep(configs, answers, 0);
  }
}
