/**
 * What the rollback command guarantees, stated over the trace of Migrator
 * calls and the exit status, for every reply the Migrator may give.
 */
module RollbackProperties {
  import opened Console
  import opened MigratorCalls
  import opened Rollback

  /** The log the Migrator reports is non-empty: there is something to roll back. */
  predicate HasLast(o: Oracle)
  {
    o.ran.Returns? && |o.ran.value| > 0
  }

  /** The most recently applied migration, by position in the log. */
  function Last(o: Oracle): Id
    requires HasLast(o)
  {
    o.ran.value[|o.ran.value| - 1]
  }

  /** The operator was asked about a missing file and said no. */
  predicate Declined(o: Oracle, opts: Options)
  {
    HasLast(o) && !opts.hard && o.fileExists == Returns(false) && !o.confirmed
  }

  /** The rollback step proper (hard unlog, down step, or confirmed unlog)
      finishes without throwing. */
  predicate StepCompletes(o: Oracle, opts: Options)
  {
    && HasLast(o)
    && if opts.hard then o.removeFromLog.Returns?
       else match o.fileExists
            case Throws(_) => false
            case Returns(present) =>
              if present then o.rollback.Returns? else o.confirmed && o.removeFromLog.Returns?
  }

  /** The command gets to the end of `fire`. */
  predicate Succeeds(o: Oracle, opts: Options)
  {
    && o.ran.Returns?
    && (|o.ran.value| == 0 || (StepCompletes(o, opts) && (!opts.delete || o.deleteFile.Returns?)))
  }

  /** The rollback step `fire` takes on a non-empty log. */
  function StepOf(o: Oracle, opts: Options): Run<Call, ()>
    requires HasLast(o)
  {
    if opts.hard then HardRollbackMigration(o, Last(o)) else Rollback.RollbackMigration(o, Last(o))
  }

  /** `fire` on a non-empty log, laid out as: read the log, the rollback
      step, then (when the step returned) the optional deletion. */
  lemma FireUnfolds(o: Oracle, opts: Options)
    requires HasLast(o)
    ensures var step := StepOf(o, opts);
            var del := DeleteIfNeeded(o, opts, Last(o));
            var r := Fire(o, opts);
            && r.calls == [GetRanMigrations] + step.calls + (if step.flow.Normal? then del.calls else [])
            && (step.flow.Raised? ==> r.flow == Raised(step.flow.ex))
            && (step.flow.Normal? && del.flow.Raised? ==> r.flow == Raised(del.flow.ex))
            && (step.flow.Normal? && del.flow.Normal? ==> r.flow == Normal(0))
  {
  }

  /** The calls the rollback step makes, case by case. */
  function StepCalls(o: Oracle, opts: Options): seq<Call>
    requires HasLast(o)
  {
    var m := Last(o);
    if opts.hard then [RemoveSuccessfulMigrationFromLog(m)]
    else match o.fileExists
         case Throws(_) => [DoesMigrationFileExist(m)]
         case Returns(true) => [DoesMigrationFileExist(m), Call.RollbackMigration(m)]
         case Returns(false) =>
           if o.confirmed then [DoesMigrationFileExist(m), RemoveSuccessfulMigrationFromLog(m)]
           else [DoesMigrationFileExist(m)]
  }

  /** The rollback step makes the calls of `StepCalls`, and returns exactly
      when it completes. */
  lemma StepShape(o: Oracle, opts: Options)
    requires HasLast(o)
    ensures StepOf(o, opts).calls == StepCalls(o, opts)
    ensures StepOf(o, opts).flow.Normal? <==> StepCompletes(o, opts)
  {
  }

  /** With an empty log the command only reads the log, says there is
      nothing to roll back, and exits with 0. */
  lemma EmptyLogIsNoOp(o: Oracle, opts: Options)
    requires o.ran == Returns([])
    ensures Command(o, opts) == Execution([GetRanMigrations], [NothingToRollback], Exit(0))
  {
  }

  /** The log is read once, first; every later call is about the last
      migration of the log. */
  lemma EveryCallTargetsLast(o: Oracle, opts: Options)
    requires HasLast(o)
    ensures var calls := Command(o, opts).calls;
            && calls[0] == GetRanMigrations
            && forall i :: 1 <= i < |calls| ==> About(calls[i], Last(o))
  {
    assert Command(o, opts).calls == Fire(o, opts).calls;
    FireCalls(o, opts);
  }

  /** `--hard` never asks whether the file exists and never runs the down
      step; it removes the last migration from the log. */
  lemma HardRollbackOnlyUnlogs(o: Oracle, opts: Options)
    requires opts.hard
    ensures var calls := Command(o, opts).calls;
            forall c :: c in calls ==> !c.DoesMigrationFileExist? && !c.RollbackMigration?
    ensures HasLast(o) ==>
              var calls := Command(o, opts).calls;
              |calls| >= 2 && calls[1] == RemoveSuccessfulMigrationFromLog(Last(o))
  {
    if HasLast(o) {
      FireUnfolds(o, opts);
      StepShape(o, opts);
    }
  }

  /** Without `--hard` and with the file present, the down step runs and
      the command itself never removes the log entry. */
  lemma PresentFileRunsDownStep(o: Oracle, opts: Options)
    requires HasLast(o) && !opts.hard && o.fileExists == Returns(true)
    ensures var calls := Command(o, opts).calls;
            && calls[1..3] == [DoesMigrationFileExist(Last(o)), Call.RollbackMigration(Last(o))]
            && forall c :: c in calls ==> !c.RemoveSuccessfulMigrationFromLog?
  {
    FireUnfolds(o, opts);
    StepShape(o, opts);
  }

  /** Without `--hard`, with the file missing and the operator consenting,
      the log entry is removed and no down step runs. */
  lemma ConfirmedMissingFileUnlogs(o: Oracle, opts: Options)
    requires HasLast(o) && !opts.hard && o.fileExists == Returns(false) && o.confirmed
    ensures var calls := Command(o, opts).calls;
            && calls[1..3] == [DoesMigrationFileExist(Last(o)), RemoveSuccessfulMigrationFromLog(Last(o))]
            && forall c :: c in calls ==> !c.RollbackMigration?
  {
    FireUnfolds(o, opts);
    StepShape(o, opts);
  }

  /** A declined confirmation aborts: nothing is unlogged or deleted, only
      "Abort!" is written, and the exit status is 1. */
  lemma DeclinedConfirmationAborts(o: Oracle, opts: Options)
    requires Declined(o, opts)
    ensures Command(o, opts) ==
              Execution([GetRanMigrations, DoesMigrationFileExist(Last(o))], [ErrorLine(AbortText)], Exit(1))
  {
    FireUnfolds(o, opts);
    StepShape(o, opts);
  }

  /** The file is deleted exactly when `--delete` is set and the rollback
      step finished without throwing; the deletion is then the last call,
      made once, right after the call that rolled the migration back. */
  lemma DeleteOnlyAfterCompletedStep(o: Oracle, opts: Options)
    ensures var calls := Command(o, opts).calls;
            (exists i :: 0 <= i < |calls| && calls[i].DeleteMigrationFile?) <==>
              opts.delete && StepCompletes(o, opts)
    ensures var calls := Command(o, opts).calls;
            forall i :: 0 <= i < |calls| && calls[i].DeleteMigrationFile? ==>
              && i == |calls| - 1
              && i >= 2
              && (calls[i - 1].RollbackMigration? || calls[i - 1].RemoveSuccessfulMigrationFromLog?)
  {
    assert Command(o, opts).calls == Fire(o, opts).calls;
    DeletionInFire(o, opts);
  }

  /** The calls of `fire`: the log read, the rollback step's calls, and the
      deletion when the step completed and `--delete` is set. */
  lemma FireCalls(o: Oracle, opts: Options)
    requires HasLast(o)
    ensures Fire(o, opts).calls ==
              [GetRanMigrations] + StepCalls(o, opts)
              + (if opts.delete && StepCompletes(o, opts) then [DeleteMigrationFile(Last(o))] else [])
  {
    FireUnfolds(o, opts);
    StepShape(o, opts);
  }

  /** The rollback step never deletes, and when it completes its last call
      is the one that rolled the migration back. */
  lemma StepCallsShape(o: Oracle, opts: Options)
    requires HasLast(o)
    ensures |StepCalls(o, opts)| > 0
    ensures var sc := StepCalls(o, opts);
            forall i :: 0 <= i < |sc| ==> !sc[i].DeleteMigrationFile?
    ensures var sc := StepCalls(o, opts);
            StepCompletes(o, opts) ==>
              sc[|sc| - 1].RollbackMigration? || sc[|sc| - 1].RemoveSuccessfulMigrationFromLog?
  {
  }

  /** `DeleteOnlyAfterCompletedStep`, stated over the calls of `fire`. */
  lemma DeletionInFire(o: Oracle, opts: Options)
    ensures var calls := Fire(o, opts).calls;
            (exists i :: 0 <= i < |calls| && calls[i].DeleteMigrationFile?) <==>
              opts.delete && StepCompletes(o, opts)
    ensures var calls := Fire(o, opts).calls;
            forall i :: 0 <= i < |calls| && calls[i].DeleteMigrationFile? ==>
              && i == |calls| - 1
              && i >= 2
              && (calls[i - 1].RollbackMigration? || calls[i - 1].RemoveSuccessfulMigrationFromLog?)
  {
    if HasLast(o) {
      var sc := StepCalls(o, opts);
      FireCalls(o, opts);
      StepCallsShape(o, opts);
      DeletionPlaced([GetRanMigrations] + sc, opts.delete && StepCompletes(o, opts), Last(o));
    }
  }

  /** A trace that does not delete, optionally followed by one deletion. */
  lemma DeletionPlaced(prefix: seq<Call>, deletes: bool, m: Id)
    requires |prefix| >= 2
    requires forall i :: 0 <= i < |prefix| ==> !prefix[i].DeleteMigrationFile?
    ensures var calls := prefix + (if deletes then [DeleteMigrationFile(m)] else []);
            && ((exists i :: 0 <= i < |calls| && calls[i].DeleteMigrationFile?) <==> deletes)
            && forall i :: 0 <= i < |calls| && calls[i].DeleteMigrationFile? ==>
                 i == |calls| - 1 && calls[i - 1] == prefix[|prefix| - 1]
  {
    var calls := prefix + (if deletes then [DeleteMigrationFile(m)] else []);
    if deletes {
      assert calls[|calls| - 1].DeleteMigrationFile?;
    }
  }


  /** `fire` gets to its end exactly when every Migrator call it needs
      returns and the operator did not decline; it then exits with 0. */
  lemma SuccessExitsZero(o: Oracle, opts: Options)
    ensures Fire(o, opts).flow.Normal? <==> Succeeds(o, opts)
    ensures Succeeds(o, opts) ==> Command(o, opts).status == Exit(0)
  {
    if HasLast(o) {
      FireUnfolds(o, opts);
      StepShape(o, opts);
    }
  }

  /** What `deleteMigrationFile` returns changes only the message, never
      the calls made or the exit status. */
  lemma DeleteResultIgnored(o: Oracle, opts: Options, a: bool, b: bool)
    ensures var ea := Command(o.(deleteFile := Returns(a)), opts);
            var eb := Command(o.(deleteFile := Returns(b)), opts);
            ea.calls == eb.calls && ea.status == eb.status
  {
    var oa := o.(deleteFile := Returns(a));
    var ob := o.(deleteFile := Returns(b));
    if HasLast(o) {
      FireUnfolds(oa, opts);
      FireUnfolds(ob, opts);
      StepShape(oa, opts);
      StepShape(ob, opts);
      assert StepCompletes(oa, opts) == StepCompletes(ob, opts);
    }
  }

  /** The first Migrator call that throws ends the command: no call before
      the last one threw, and `fire` throws exactly when the last call threw
      (its throwable is the one that escapes) or the operator declined. */
  lemma FirstFailureEndsCommand(o: Oracle, opts: Options)
    ensures var calls := Fire(o, opts).calls;
            forall i :: 0 <= i < |calls| - 1 ==> !Threw(o, calls[i])
    ensures var r := Fire(o, opts);
            r.flow.Raised? <==> Threw(o, r.calls[|r.calls| - 1]) || Declined(o, opts)
    ensures var r := Fire(o, opts);
            Threw(o, r.calls[|r.calls| - 1]) ==> r.flow == Raised(ThrownBy(o, r.calls[|r.calls| - 1]))
  {
    if HasLast(o) {
      FireUnfolds(o, opts);
      StepFirstFailure(o, opts);
      var step := StepOf(o, opts);
      var tail := if step.flow.Normal? then DeleteIfNeeded(o, opts, Last(o)).calls else [];
      OnlyLastMayThrow(o, step.calls, tail);
    }
  }

  /** A trace made of the log read, a step in which only the last call may
      throw, and at most one more call after a step whose last call
      returned: only its last call may throw. */
  lemma OnlyLastMayThrow(o: Oracle, step: seq<Call>, tail: seq<Call>)
    requires !Threw(o, GetRanMigrations)
    requires |step| > 0 && forall i :: 0 <= i < |step| - 1 ==> !Threw(o, step[i])
    requires |tail| <= 1 && (|tail| == 1 ==> !Threw(o, step[|step| - 1]))
    ensures var calls := [GetRanMigrations] + step + tail;
            && (forall i :: 0 <= i < |calls| - 1 ==> !Threw(o, calls[i]))
            && calls[|calls| - 1] == if |tail| == 1 then tail[0] else step[|step| - 1]
  {
    var calls := [GetRanMigrations] + step + tail;
    forall i | 0 <= i < |calls| - 1
      ensures !Threw(o, calls[i])
    {
      if 1 <= i {
        assert calls[i] == step[i - 1];
      }
    }
  }


  /** Within the rollback step, too, the first throwing call is its last. */
  lemma StepFirstFailure(o: Oracle, opts: Options)
    requires HasLast(o)
    ensures var s := StepOf(o, opts);
            && |s.calls| > 0
            && (forall i :: 0 <= i < |s.calls| - 1 ==> !Threw(o, s.calls[i]))
            && (s.flow.Raised? <==> Threw(o, s.calls[|s.calls| - 1]) || Declined(o, opts))
            && (Threw(o, s.calls[|s.calls| - 1]) ==> s.flow == Raised(ThrownBy(o, s.calls[|s.calls| - 1])))
  {
    StepShape(o, opts);
  }

  /** A failing deletion is not best-effort: after the log entry is gone,
      its exception still decides the exit status. */
  lemma DeleteFailurePropagates(o: Oracle, opts: Options, code: int, message: string)
    requires StepCompletes(o, opts) && opts.delete
    requires o.deleteFile == Throws(OtherException(code, message))
    ensures var e := Command(o, opts);
            && e.status == Exit(code)
            && e.lines[|e.lines| - 2..] == [ErrorLine(message), ErrorLine(AbortText)]
  {
    FireUnfolds(o, opts);
    StepShape(o, opts);
  }
}
