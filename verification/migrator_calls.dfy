/**
 * The Migrator as the rollback command sees it: an uninterpreted
 * collaborator. Every call the command makes is recorded in a trace, and
 * what each call gives back (a value, or a throwable) is supplied by an
 * `Oracle` instead of being computed. The Migrator class itself is not part
 * of this model.
 */
module MigratorCalls {
  import opened Console

  /** A migration name as stored in the log. */
  type Id = string

  /** One call on the Migrator. */
  datatype Call =
    | GetRanMigrations
    | DoesMigrationFileExist(migration: Id)
    | RollbackMigration(migration: Id)
    | RemoveSuccessfulMigrationFromLog(migration: Id)
    | DeleteMigrationFile(migration: Id)

  /** What one Migrator call gives back. */
  datatype Reply<+T> = Returns(value: T) | Throws(ex: Throwable)

  /** The environment of one rollback: the reply to each kind of Migrator
      call (the command issues each kind at most once, always about the same
      migration), and the operator's answer to the confirmation question. */
  datatype Oracle = Oracle(
    ran: Reply<seq<Id>>,
    fileExists: Reply<bool>,
    rollback: Reply<()>,
    removeFromLog: Reply<()>,
    deleteFile: Reply<bool>,
    confirmed: bool)

  /** Issues `call`, whose only result is returning or throwing. */
  function Invoke(call: Call, reply: Reply<()>): (r: Run<Call, ()>)
    ensures r.calls == [call] && r.lines == []
    ensures r.flow.Normal? <==> reply.Returns?
    ensures reply.Throws? ==> r.flow == Raised(reply.ex)
  {
    match reply
    case Returns(_) => Run([call], [], Normal(()))
    case Throws(e) => Run([call], [], Raised(e))
  }

  /** `call` is about migration `m`. */
  predicate About(call: Call, m: Id)
  {
    !call.GetRanMigrations? && call.migration == m
  }

  /** The oracle makes `call` throw. */
  predicate Threw(o: Oracle, call: Call)
  {
    match call
    case GetRanMigrations => o.ran.Throws?
    case DoesMigrationFileExist(_) => o.fileExists.Throws?
    case RollbackMigration(_) => o.rollback.Throws?
    case RemoveSuccessfulMigrationFromLog(_) => o.removeFromLog.Throws?
    case DeleteMigrationFile(_) => o.deleteFile.Throws?
  }

  /** What the oracle makes `call` throw. */
  function ThrownBy(o: Oracle, call: Call): Throwable
    requires Threw(o, call)
  {
    match call
    case GetRanMigrations => o.ran.ex
    case DoesMigrationFileExist(_) => o.fileExists.ex
    case RollbackMigration(_) => o.rollback.ex
    case RemoveSuccessfulMigrationFromLog(_) => o.removeFromLog.ex
    case DeleteMigrationFile(_) => o.deleteFile.ex
  }
}
