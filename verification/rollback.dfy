/**
 * The `rollback` console command (src/Commands/RollbackCommand.php): it
 * rolls back the most recently applied migration, either by running its
 * down step, or (with `--hard`, or with the operator's consent when the
 * migration file is gone) by only removing it from the log, and then, with
 * `--delete`, deletes the migration file.
 */
module Rollback {
  import opened Console
  import opened MigratorCalls

  /** The lines the command writes: through `info` when there is nothing
      to roll back, through `message` (with its own markup) after a
      rollback and after a deletion. */
  const NothingToRollback: Line := InfoLine("Nothing to rollback")

  function RolledBack(m: Id): Line
  {
    MessageLine("<info>Rolled back:</info> " + m + ".php")
  }

  function RolledBackHard(m: Id): Line
  {
    MessageLine("<info>Rolled back with --hard:</info> " + m + ".php")
  }

  function Deleted(m: Id): Line
  {
    MessageLine("<info>Deleted:</info> " + m + ".php")
  }

  /** The two command-line switches of the command. */
  datatype Options = Options(hard: bool, delete: bool)

  /** `fire`: the body of the command. */
  function Fire(o: Oracle, opts: Options): (r: Run<Call, int>)
    ensures |r.calls| > 0 && r.calls[0] == GetRanMigrations
    ensures r.flow.Normal? ==> r.flow.value == 0
  {
    match o.ran
    case Throws(e) => Run([GetRanMigrations], [], Raised(e))
    case Returns(ran) =>
      if |ran| == 0 then Run([GetRanMigrations], [NothingToRollback], Normal(0))
      else
        var m := ran[|ran| - 1];
        var step := if opts.hard then HardRollbackMigration(o, m) else RollbackMigration(o, m);
        Then(Run([GetRanMigrations], [], Normal(())),
          Then(step,
            Then(DeleteIfNeeded(o, opts, m), Return(0))))
  }

  /** `rollbackMigration`: runs the down step when the file is there,
      otherwise asks the operator before only removing the log entry. */
  function RollbackMigration(o: Oracle, m: Id): (r: Run<Call, ()>)
    ensures |r.calls| > 0 && r.calls[0] == DoesMigrationFileExist(m)
    ensures o.fileExists == Returns(true) ==> RemoveSuccessfulMigrationFromLog(m) !in r.calls
    ensures o.fileExists == Returns(false) ==> Call.RollbackMigration(m) !in r.calls
    ensures r.flow.Normal? ==> r.lines == [RolledBack(m)]
  {
    match o.fileExists
    case Throws(e) => Run([DoesMigrationFileExist(m)], [], Raised(e))
    case Returns(present) =>
      var body := if present then Invoke(Call.RollbackMigration(m), o.rollback)
                  else MarkRolledBackWithConfirmation(o, m);
      Then(Run([DoesMigrationFileExist(m)], [], Normal(())),
        Then(body, Say(RolledBack(m))))
  }

  /** `hardRollbackMigration`: removes the log entry without a down step. */
  function HardRollbackMigration(o: Oracle, m: Id): (r: Run<Call, ()>)
    ensures r.calls == [RemoveSuccessfulMigrationFromLog(m)]
    ensures r.flow.Normal? <==> o.removeFromLog.Returns?
    ensures r.flow.Normal? ==> r.lines == [RolledBackHard(m)]
  {
    Then(Invoke(RemoveSuccessfulMigrationFromLog(m), o.removeFromLog), Say(RolledBackHard(m)))
  }

  /** `markRolledBackWithConfirmation`: a declined confirmation aborts before
      the log is touched; a confirmed one removes the log entry. */
  function MarkRolledBackWithConfirmation(o: Oracle, m: Id): (r: Run<Call, ()>)
    ensures !o.confirmed ==> r.calls == [] && r.flow == Raised(DomainException)
    ensures o.confirmed ==> r.calls == [RemoveSuccessfulMigrationFromLog(m)]
    ensures r.flow.Normal? <==> o.confirmed && o.removeFromLog.Returns?
  {
    Then(if o.confirmed then Return(()) else Raise(Abort("")),
      Invoke(RemoveSuccessfulMigrationFromLog(m), o.removeFromLog))
  }

  /** `deleteIfNeeded`: with `--delete`, asks the Migrator to delete the
      file; whether a file was actually deleted only decides the message. */
  function DeleteIfNeeded(o: Oracle, opts: Options, m: Id): (r: Run<Call, ()>)
    ensures r.calls == if opts.delete then [DeleteMigrationFile(m)] else []
    ensures r.flow.Normal? <==> !opts.delete || o.deleteFile.Returns?
    ensures Deleted(m) in r.lines <==> opts.delete && o.deleteFile == Returns(true)
  {
    if !opts.delete then Return(())
    else
      match o.deleteFile
      case Throws(e) => Run([DeleteMigrationFile(m)], [], Raised(e))
      case Returns(deleted) =>
        Run([DeleteMigrationFile(m)], if deleted then [Deleted(m)] else [], Normal(()))
  }

  /** The whole command as the console application runs it: `execute`
      around `fire`. */
  function Command(o: Oracle, opts: Options): Execution<Call>
  {
    Execute(Fire(o, opts))
  }
}
