# Rollback command of bitrix-migrations, modelled in Dafny

This project models the `rollback` console command of the bitrix-migrations
tool and the console-command base class that wraps it:

- `RollbackCommand::fire` reads the list of applied migrations from the
  Migrator. On an empty list it says there is nothing to roll back and
  returns 0. Otherwise it takes the last migration of the list and rolls it
  back: with `--hard` it only removes the migration from the log; without it,
  it runs the migration's down step when the migration file exists, and when
  the file is missing it asks the operator whether to mark the migration as
  rolled back (yes: remove it from the log; no: abort). With `--delete` it
  then asks the Migrator to delete the migration file. It returns 0.
- `AbstractCommand::abort` writes an optional message and "Abort!" and throws
  a `DomainException`; `AbstractCommand::execute` runs `fire` and turns its
  outcome into the exit status: the returned value, 1 for a
  `DomainException`, and the exception's own code for any other `Exception`
  (after writing its message and "Abort!").

The Migrator class is not part of this model. It is treated as an
uninterpreted collaborator: the model records every call the command makes
on it (`MigratorCalls.Call`) and takes what each call gives back, a value or
a throwable, from an `Oracle` record, together with the operator's answer to
the confirmation question. Each kind of Migrator call is made at most once
per run and always about the same migration, so one reply per kind is
enough. A run of command code is a `Console.Run`: the trace of calls, the
console lines written, and whether it returned or threw.

Files:

- `console.dfy` (module `Console`): throwables, console lines (by the
  `error`, `info` or `message` helper that wrote them), `abort`
  (whose result type, `Thrown`, has no normal return), `execute`, and
  sequencing of statements under exceptions.
- `migrator_calls.dfy` (module `MigratorCalls`): the Migrator calls, replies
  and the oracle.
- `rollback.dfy` (module `Rollback`): the lines the command writes, `fire`
  and its four helpers, and the whole command `Command = Execute(Fire(...))`.
- `rollback_properties.dfy` (module `RollbackProperties`): the guarantees of
  the command, branch by branch, for every oracle.
- `rollback_machine.dfy` (module `RollbackMachine`): an independent
  small-step state machine of the rollback decision (read the log; hard
  unlog; check the file; revert; ask the operator; unlog after consent;
  clean up), proved to do exactly what `fire` does.
- `in_memory.dfy` (module `InMemoryMigrator`): an illustrative Migrator whose
  log is a list of names and whose files are a set of names, on which a
  rollback that goes through drops exactly the last log entry, and two
  worked scenarios (`ConfirmedMissingFileScenario`, `HardDeleteScenario`).

Two facts about the code that a reader might not expect:

- Deletion is not best-effort: an exception from `deleteMigrationFile`
  escapes `fire` after the rollback step has returned, and its code becomes
  the exit status (`RollbackProperties.DeleteFailurePropagates`).
- Exit status 1 is not reserved for aborts: an ordinary exception with code
  1 also gives 1, and one with code 0 (PHP's default code) gives 0, the
  success status (`Console.ExitOneMeans`, `Console.ExitZeroMeans`). A
  `DomainException` thrown by the Migrator itself exits with 1 like an
  abort.

## Model

| member | source | states |
|---|---|---|
| Console.Abort | src/Commands/AbstractCommand.php:21-30 | abort never returns normally (its result type has no normal return): it always throws a DomainException, writes "Abort!" last, and writes the message before it exactly when the message is PHP-truthy (not "" and not "0") |
| Console.Execute | src/Commands/AbstractCommand.php:40-55 | a normal return of fire becomes that exit code; a DomainException becomes 1 with no further output; any other Exception becomes its own code after its message and "Abort!" are written; an engine Error is not caught; fire's calls and output are kept |
| Console.AbortNeverReturns | src/Commands/AbstractCommand.php:21-48 | nothing after a call to abort runs: the output is what came before followed by exactly the lines abort wrote, and the command then exits with 1 without writing anything more |
| Console.ExitOneMeans | src/Commands/AbstractCommand.php:45-53 | exit status 1 happens exactly when fire returned 1, threw a DomainException, or threw another exception with code 1 |
| Console.ExitZeroMeans | src/Commands/AbstractCommand.php:45-53 | exit status 0 happens exactly when fire returned 0 or threw an ordinary exception with code 0 |
| Rollback.Fire | src/Commands/RollbackCommand.php:51-70 | fire always starts by reading the applied-migration list, and whenever it returns normally it returns 0 |
| Rollback.RollbackMigration | src/Commands/RollbackCommand.php:80-89 | first asks whether the file exists; with the file present it never unlogs, with it missing it never runs the down step; when it returns it has written the "rolled back" line |
| Rollback.HardRollbackMigration | src/Commands/RollbackCommand.php:98-103 | makes exactly one call, removing the migration from the log, and returns exactly when that call returns |
| Rollback.MarkRolledBackWithConfirmation | src/Commands/RollbackCommand.php:112-122 | a declined confirmation throws a DomainException before any Migrator call; a confirmed one removes the migration from the log, and it returns only when the operator confirmed and the removal returned |
| Rollback.DeleteIfNeeded | src/Commands/RollbackCommand.php:131-140 | calls deleteMigrationFile exactly when --delete is set, returns unless that call throws, and writes the "deleted" line exactly when a file was deleted |
| RollbackProperties.EmptyLogIsNoOp | src/Commands/RollbackCommand.php:53-59 | on an empty log the only call is the log read, the only line is "nothing to rollback", and the exit status is 0 |
| RollbackProperties.EveryCallTargetsLast | src/Commands/RollbackCommand.php:53-67 | the log is read first and once; every later call is about the last element of the list by position |
| RollbackProperties.HardRollbackOnlyUnlogs | src/Commands/RollbackCommand.php:63-65 | with --hard the file-exists check and the down step are never called, and on a non-empty log the second call removes the last migration from the log |
| RollbackProperties.PresentFileRunsDownStep | src/Commands/RollbackCommand.php:80-83 | without --hard and with the file present, the existence check is followed by the down step of the last migration, and the log entry is never removed by the command |
| RollbackProperties.ConfirmedMissingFileUnlogs | src/Commands/RollbackCommand.php:112-121 | without --hard, with the file missing and the operator confirming, the existence check is followed by removal of the last migration from the log, and the down step is never called |
| RollbackProperties.DeclinedConfirmationAborts | src/Commands/RollbackCommand.php:117-118 | a declined confirmation ends the command after the existence check: no unlog, no deletion, only "Abort!" written, exit status 1 |
| RollbackProperties.DeleteOnlyAfterCompletedStep | src/Commands/RollbackCommand.php:61-67 | the file is deleted if and only if --delete is set and the rollback step finished without throwing; the deletion is then the single last call, right after the call that rolled back |
| RollbackProperties.SuccessExitsZero | src/Commands/RollbackCommand.php:61-69 | fire returns normally if and only if the log read, the rollback step and the deletion all returned and the operator did not decline, and then the exit status is 0 |
| RollbackProperties.DeleteResultIgnored | src/Commands/RollbackCommand.php:131-139 | what deleteMigrationFile returns changes neither the calls made nor the exit status |
| RollbackProperties.FirstFailureEndsCommand | src/Commands/RollbackCommand.php:51-70 | no Migrator call but the last one threw; fire throws if and only if its last call threw or the operator declined, and then the last call's throwable is the one that escapes |
| RollbackProperties.DeleteFailurePropagates | src/Commands/RollbackCommand.php:131-137 | after a completed rollback step, an exception from the deletion still decides the exit status, and its message and "Abort!" close the output |
| RollbackMachine.MachineAgreesWithFire | src/Commands/RollbackCommand.php:51-70 | the rollback decision as a state machine reaches a final state within five steps, with the same calls, lines and outcome as fire |
| InMemoryMigrator.RollbackDropsLastEntry | src/Commands/RollbackCommand.php:51-70 | against a list log without duplicates and a set of files: an empty log is left alone with exit 0; a rollback that goes through exits 0, leaves exactly the earlier log entries in order and deletes the file only with --delete; a declined confirmation changes nothing and exits 1 |

## Left out

- Symfony Console plumbing: the `#[AsCommand]` attribute, the constructor,
  `configure` and its option declarations. The options are the two booleans
  of `Rollback.Options`.
- The confirmation question's I/O: the question helper and the prompt it
  writes are not modelled; the operator's answer is the boolean
  `Oracle.confirmed`. In non-interactive mode the question's default (no)
  applies, which is `confirmed == false`.
- Console markup added by the helpers: a line records which of `error`,
  `info` or `message` wrote it and the text it was given (the `message`
  texts keep their own `<info>` tags and the `.php` suffix), but the
  `<error>`/`<info>` tags that `error` and `info` wrap around it are left
  out.
- The Migrator's own behaviour (`getRanMigrations`, `rollbackMigration`,
  `removeSuccessfulMigrationFromLog`, `doesMigrationFileExist`,
  `deleteMigrationFile`): the Migrator class is not part of this model, so
  its replies are inputs. `InMemoryMigrator` is one illustrative instance,
  not a model of it; properties of the Migrator alone (idempotent deletion,
  apply-then-revert round trip, pending migrations) are left out for the
  same reason.
- `getRanMigrations` is taken to return a PHP list (keys 0 to n-1), so that
  `$ran[count($ran) - 1]` is its last element; associative arrays are not
  modelled.
- Console.Execute: the body's result is an `int`; `fire` may be declared to
  return null, but this command never does. Exception codes that are not
  integers are not modelled.
- What the console application does with an `Error` that escapes `execute`
  is outside this model; the model only reports it as `Uncaught`.
- Concurrency and persistence: the command is sequential and keeps no state
  of its own.
