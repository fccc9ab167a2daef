/**
 * One concrete Migrator, for illustration: the log is a list of migration
 * names in the order they were applied, the migration files are a set of
 * names, and every down step succeeds. Replaying the command's trace of
 * Migrator calls against it shows what a rollback does to the log and the
 * files.
 */
module InMemoryMigrator {
  import opened Console
  import opened MigratorCalls
  import opened Rollback
  import RollbackProperties

  datatype Store = Store(log: seq<Id>, files: set<Id>)

  /** No migration is logged twice. */
  predicate NoDuplicates(log: seq<Id>)
  {
    forall i, j :: 0 <= i < j < |log| ==> log[i] != log[j]
  }

  /** The log with the entries for `m` removed, the others kept in order. */
  function Unlog(log: seq<Id>, m: Id): (r: seq<Id>)
    ensures forall x :: x in r <==> x in log && x != m
  {
    if log == [] then []
    else Unlog(log[..|log| - 1], m) + (if log[|log| - 1] == m then [] else [log[|log| - 1]])
  }

  /** The answers this Migrator gives about `st`: the log as it stands, and
      whether the file of its last migration is there. */
  function OracleOf(st: Store, confirmed: bool): Oracle
  {
    var present := |st.log| > 0 && st.log[|st.log| - 1] in st.files;
    Oracle(Returns(st.log), Returns(present), Returns(()), Returns(()), Returns(present), confirmed)
  }

  /** The effect of one Migrator call: the down step and the log removal
      both drop the log entry, deletion drops the file, the rest only read. */
  function Apply(st: Store, call: Call): Store
  {
    match call
    case GetRanMigrations => st
    case DoesMigrationFileExist(_) => st
    case RollbackMigration(m) => st.(log := Unlog(st.log, m))
    case RemoveSuccessfulMigrationFromLog(m) => st.(log := Unlog(st.log, m))
    case DeleteMigrationFile(m) => st.(files := st.files - {m})
  }

  /** The effect of a whole trace of calls, in order. */
  function ApplyAll(st: Store, calls: seq<Call>): Store
  {
    if calls == [] then st else Apply(ApplyAll(st, calls[..|calls| - 1]), calls[|calls| - 1])
  }

  /** Removing a migration that is not logged changes nothing. */
  lemma {:induction false} UnlogAbsent(log: seq<Id>, m: Id)
    requires m !in log
    ensures Unlog(log, m) == log
  {
    if log != [] {
      UnlogAbsent(log[..|log| - 1], m);
      assert log[..|log| - 1] + [log[|log| - 1]] == log;
    }
  }

  /** In a log without duplicates, removing the last migration leaves
      exactly the earlier ones, in their order. */
  lemma UnlogLast(log: seq<Id>)
    requires NoDuplicates(log) && |log| > 0
    ensures Unlog(log, log[|log| - 1]) == log[..|log| - 1]
  {
    var m := log[|log| - 1];
    forall i | 0 <= i < |log| - 1
      ensures log[i] != m
    {
    }
    assert m !in log[..|log| - 1];
    UnlogAbsent(log[..|log| - 1], m);
  }

  /** The three outcomes of a rollback against this Migrator: an empty log
      is left alone; a rollback that goes through drops exactly the last
      log entry (and, with `--delete`, its file); a declined confirmation
      changes nothing and exits with 1. */
  lemma RollbackDropsLastEntry(st: Store, opts: Options, confirmed: bool)
    requires NoDuplicates(st.log)
    ensures var e := Command(OracleOf(st, confirmed), opts);
            |st.log| == 0 ==> e.status == Exit(0) && ApplyAll(st, e.calls) == st
    ensures var e := Command(OracleOf(st, confirmed), opts);
            |st.log| > 0 ==>
              var last := st.log[|st.log| - 1];
              opts.hard || last in st.files || confirmed ==>
                && e.status == Exit(0)
                && ApplyAll(st, e.calls).log == st.log[..|st.log| - 1]
                && ApplyAll(st, e.calls).files == (if opts.delete then st.files - {last} else st.files)
    ensures var e := Command(OracleOf(st, confirmed), opts);
            |st.log| > 0 ==>
              var last := st.log[|st.log| - 1];
              !opts.hard && last !in st.files && !confirmed ==>
                e.status == Exit(1) && ApplyAll(st, e.calls) == st
  {
    if |st.log| > 0 {
      var last := st.log[|st.log| - 1];
      if opts.hard || last in st.files || confirmed {
        GoneThroughDropsLast(st, opts, confirmed);
      } else {
        DeclinedLeavesStore(st, opts);
      }
    } else {
      RollbackProperties.EmptyLogIsNoOp(OracleOf(st, confirmed), opts);
    }
  }

  /** A rollback that goes through drops the last log entry, and its file
      with `--delete`. */
  lemma GoneThroughDropsLast(st: Store, opts: Options, confirmed: bool)
    requires NoDuplicates(st.log) && |st.log| > 0
    requires opts.hard || st.log[|st.log| - 1] in st.files || confirmed
    ensures var e := Command(OracleOf(st, confirmed), opts);
            var last := st.log[|st.log| - 1];
            && e.status == Exit(0)
            && ApplyAll(st, e.calls).log == st.log[..|st.log| - 1]
            && ApplyAll(st, e.calls).files == (if opts.delete then st.files - {last} else st.files)
  {
    GoneThroughTrace(st, opts, confirmed);
    UnlogLast(st.log);
    ReplayGoneThrough(st, opts, confirmed);
  }

  /** A declined confirmation leaves the store as it was. */
  lemma DeclinedLeavesStore(st: Store, opts: Options)
    requires |st.log| > 0 && !opts.hard && st.log[|st.log| - 1] !in st.files
    ensures var e := Command(OracleOf(st, false), opts);
            e.status == Exit(1) && ApplyAll(st, e.calls) == st
  {
    var last := st.log[|st.log| - 1];
    RollbackProperties.DeclinedConfirmationAborts(OracleOf(st, false), opts);
    assert ApplyAll(st, [GetRanMigrations]) == st;
    assert [GetRanMigrations, DoesMigrationFileExist(last)][..1] == [GetRanMigrations];
  }

  /** The reads before the rollback step, the call that rolls back, and the
      deletion, on a non-empty log. */
  function ReadsBefore(opts: Options, last: Id): seq<Call>
  {
    if opts.hard then [GetRanMigrations] else [GetRanMigrations, DoesMigrationFileExist(last)]
  }

  function StepCall(st: Store, opts: Options, last: Id): Call
  {
    if opts.hard || last !in st.files then RemoveSuccessfulMigrationFromLog(last)
    else Call.RollbackMigration(last)
  }

  function Deletion(opts: Options, last: Id): seq<Call>
  {
    if opts.delete then [DeleteMigrationFile(last)] else []
  }

  /** A rollback that goes through against this Migrator: its trace and
      exit status. */
  lemma GoneThroughTrace(st: Store, opts: Options, confirmed: bool)
    requires |st.log| > 0
    requires opts.hard || st.log[|st.log| - 1] in st.files || confirmed
    ensures var last := st.log[|st.log| - 1];
            var e := Command(OracleOf(st, confirmed), opts);
            && e.calls == ReadsBefore(opts, last) + [StepCall(st, opts, last)] + Deletion(opts, last)
            && e.status == Exit(0)
  {
    var o := OracleOf(st, confirmed);
    RollbackProperties.FireUnfolds(o, opts);
    RollbackProperties.StepShape(o, opts);
  }

  /** Replaying that trace: the reads change nothing, the step drops the
      last log entry, the deletion drops its file. */
  lemma ReplayGoneThrough(st: Store, opts: Options, confirmed: bool)
    requires |st.log| > 0
    ensures var last := st.log[|st.log| - 1];
            var after := ApplyAll(st, ReadsBefore(opts, last) + [StepCall(st, opts, last)] + Deletion(opts, last));
            && after.log == Unlog(st.log, last)
            && after.files == (if opts.delete then st.files - {last} else st.files)
  {
    var last := st.log[|st.log| - 1];
    var before := ReadsBefore(opts, last);
    var upTo := before + [StepCall(st, opts, last)];
    assert ApplyAll(st, [GetRanMigrations]) == st;
    assert ApplyAll(st, before) == st;
    assert upTo[..|before|] == before;
    assert ApplyAll(st, upTo) == Apply(st, StepCall(st, opts, last));
    if opts.delete {
      var full := upTo + Deletion(opts, last);
      assert full[..|upTo|] == upTo;
      assert ApplyAll(st, full) == Apply(ApplyAll(st, upTo), DeleteMigrationFile(last));
    } else {
      assert upTo + Deletion(opts, last) == upTo;
    }
  }

  /** A migration whose file has gone, rolled back with consent: only the
      last log entry goes, no file is touched, the exit status is 0. */
  lemma ConfirmedMissingFileScenario()
    ensures var st := Store(["20230101_a", "20230102_b"], {"20230101_a"});
            var e := Command(OracleOf(st, true), Options(false, false));
            && e.status == Exit(0)
            && ApplyAll(st, e.calls) == Store(["20230101_a"], {"20230101_a"})
  {
    var st := Store(["20230101_a", "20230102_b"], {"20230101_a"});
    RollbackDropsLastEntry(st, Options(false, false), true);
    assert st.log[..1] == ["20230101_a"];
  }

  /** A hard rollback with `--delete` of the only migration: the log
      empties and the file is deleted, the exit status is 0. */
  lemma HardDeleteScenario()
    ensures var st := Store(["20230101_a"], {"20230101_a"});
            var e := Command(OracleOf(st, false), Options(true, true));
            && e.status == Exit(0)
            && ApplyAll(st, e.calls) == Store([], {})
  {
    var st := Store(["20230101_a"], {"20230101_a"});
    RollbackDropsLastEntry(st, Options(true, true), false);
  }
}
