/**
 * An independent, small-step description of the rollback decision: a
 * state machine that takes one decision per step (read the log, unlog
 * hard, check the file, revert, ask the operator, unlog after consent,
 * clean up) and records the Migrator calls and console lines of each
 * step. `MachineAgreesWithFire` shows that the command's `fire` is exactly
 * this machine run to its end.
 */
module RollbackMachine {
  import opened Console
  import opened MigratorCalls
  import opened Rollback

  datatype State =
    | Start
    | HardUnlog(m: Id)
    | CheckFile(m: Id)
    | Revert(m: Id)
    | AskOperator(m: Id)
    | ConfirmedUnlog(m: Id)
    | Cleanup(m: Id)
    | Done
    | Failed(ex: Throwable)

  datatype Config = Config(state: State, calls: seq<Call>, lines: seq<Line>)

  predicate Final(s: State)
  {
    s.Done? || s.Failed?
  }

  /** Where a Migrator call that only returns or throws leads. */
  function AfterCall(c: Config, call: Call, reply: Reply<()>, next: State, line: Line): Config
  {
    match reply
    case Throws(e) => Config(Failed(e), c.calls + [call], c.lines)
    case Returns(_) => Config(next, c.calls + [call], c.lines + [line])
  }

  /** One decision of the machine. */
  function Step(o: Oracle, opts: Options, c: Config): (c': Config)
    requires !Final(c.state)
    ensures |c.calls| <= |c'.calls| <= |c.calls| + 1
    ensures c'.calls[..|c.calls|] == c.calls
  {
    match c.state
    case Start =>
      (match o.ran
       case Throws(e) => Config(Failed(e), c.calls + [GetRanMigrations], c.lines)
       case Returns(ran) =>
         if |ran| == 0 then Config(Done, c.calls + [GetRanMigrations], c.lines + [NothingToRollback])
         else
           var m := ran[|ran| - 1];
           Config(if opts.hard then HardUnlog(m) else CheckFile(m), c.calls + [GetRanMigrations], c.lines))
    case HardUnlog(m) =>
      AfterCall(c, RemoveSuccessfulMigrationFromLog(m), o.removeFromLog, Cleanup(m), RolledBackHard(m))
    case CheckFile(m) =>
      (match o.fileExists
       case Throws(e) => Config(Failed(e), c.calls + [DoesMigrationFileExist(m)], c.lines)
       case Returns(present) =>
         Config(if present then Revert(m) else AskOperator(m), c.calls + [DoesMigrationFileExist(m)], c.lines))
    case Revert(m) =>
      AfterCall(c, Call.RollbackMigration(m), o.rollback, Cleanup(m), RolledBack(m))
    case AskOperator(m) =>
      if o.confirmed then Config(ConfirmedUnlog(m), c.calls, c.lines)
      else Config(Failed(DomainException), c.calls, c.lines + [ErrorLine(AbortText)])
    case ConfirmedUnlog(m) =>
      AfterCall(c, RemoveSuccessfulMigrationFromLog(m), o.removeFromLog, Cleanup(m), RolledBack(m))
    case Cleanup(m) =>
      if !opts.delete then Config(Done, c.calls, c.lines)
      else
        (match o.deleteFile
         case Throws(e) => Config(Failed(e), c.calls + [DeleteMigrationFile(m)], c.lines)
         case Returns(deleted) =>
           Config(Done, c.calls + [DeleteMigrationFile(m)], c.lines + if deleted then [Deleted(m)] else []))
  }

  /** At most `fuel` decisions, stopping at a final state. */
  function Steps(o: Oracle, opts: Options, c: Config, fuel: nat): (c': Config)
    ensures c.calls <= c'.calls
    ensures Final(c.state) ==> c' == c
    decreases fuel
  {
    if Final(c.state) || fuel == 0 then c else Steps(o, opts, Step(o, opts, c), fuel - 1)
  }

  /** How the run of `fire` ended, read off a final state. */
  function FlowOf(s: State): Flow<int>
  {
    if s.Failed? then Raised(s.ex) else Normal(0)
  }

  /** The final configuration reached from `c` by running the code `r`. */
  function Finish(c: Config, r: Run<Call, int>): Config
  {
    Config(if r.flow.Normal? then Done else Failed(r.flow.ex), c.calls + r.calls, c.lines + r.lines)
  }

  /** The code `fire` runs once the rollback step is over. */
  function Tail(o: Oracle, opts: Options, m: Id): Run<Call, int>
  {
    Then(DeleteIfNeeded(o, opts, m), Return(0))
  }

  /** Five decisions always reach a final state, and that final state
      records exactly what `fire` does. */
  lemma MachineAgreesWithFire(o: Oracle, opts: Options)
    ensures var c := Steps(o, opts, Config(Start, [], []), 5);
            && Final(c.state)
            && Fire(o, opts) == Run(c.calls, c.lines, FlowOf(c.state))
  {
    var c0 := Config(Start, [], []);
    var c1 := Step(o, opts, c0);
    assert Steps(o, opts, c0, 5) == Steps(o, opts, c1, 4);
    var r := Fire(o, opts);
    if Final(c1.state) {
      assert Steps(o, opts, c0, 5) == Finish(c0, r);
    } else {
      var m := o.ran.value[|o.ran.value| - 1];
      var prefix := Run([GetRanMigrations], [], Normal(()));
      assert c1 == Config(if opts.hard then HardUnlog(m) else CheckFile(m), [GetRanMigrations], []);
      if opts.hard {
        HardUnlogAgrees(o, opts, c1, 4);
        ThenAssoc(prefix, HardRollbackMigration(o, m), Tail(o, opts, m));
      } else {
        CheckFileAgrees(o, opts, c1, 4);
        ThenAssoc(prefix, Rollback.RollbackMigration(o, m), Tail(o, opts, m));
      }
    }
  }

  /** Statement sequencing is associative. */
  lemma ThenAssoc<T>(a: Run<Call, ()>, b: Run<Call, ()>, k: Run<Call, T>)
    ensures Then(Then(a, b), k) == Then(a, Then(b, k))
  {
  }

  /** A final configuration extended by more code. */
  lemma FinishThen(c: Config, a: Run<Call, ()>, k: Run<Call, int>)
    ensures a.flow.Normal? ==>
              Finish(c, Then(a, k)) == Finish(Config(c.state, c.calls + a.calls, c.lines + a.lines), k)
  {
  }

  /** From `Cleanup(m)`, the machine ends as the rest of `fire` does. */
  lemma CleanupAgrees(o: Oracle, opts: Options, c: Config, fuel: nat)
    requires c.state.Cleanup? && fuel >= 1
    ensures Steps(o, opts, c, fuel) == Finish(c, Tail(o, opts, c.state.m))
  {
    var c1 := Step(o, opts, c);
    assert Steps(o, opts, c, fuel) == Steps(o, opts, c1, fuel - 1);
  }

  /** From the hard-unlog state the machine does what `hardRollbackMigration`
      and the rest of `fire` do. */
  lemma HardUnlogAgrees(o: Oracle, opts: Options, c: Config, fuel: nat)
    requires c.state.HardUnlog? && fuel >= 2
    ensures var m := c.state.m;
            Steps(o, opts, c, fuel) ==
              Finish(c, Then(HardRollbackMigration(o, m), Tail(o, opts, m)))
  {
    var m := c.state.m;
    UnlogAgrees(o, opts, c, RemoveSuccessfulMigrationFromLog(m), o.removeFromLog, RolledBackHard(m), fuel);
    ThenAssoc(Invoke(RemoveSuccessfulMigrationFromLog(m), o.removeFromLog), Say(RolledBackHard(m)), Tail(o, opts, m));
  }

  /** From a state whose decision is the Migrator call `call`, which on
      return writes `line` and leads to `Cleanup(m)`, the machine ends as
      that call, the line and the rest of `fire` do. */
  lemma UnlogAgrees(o: Oracle, opts: Options, c: Config, call: Call, reply: Reply<()>, line: Line, fuel: nat)
    requires !Final(c.state) && fuel >= 2 && !call.GetRanMigrations?
    requires Step(o, opts, c) == AfterCall(c, call, reply, Cleanup(call.migration), line)
    ensures Steps(o, opts, c, fuel) ==
              Finish(c, Then(Invoke(call, reply), Then(Say(line), Tail(o, opts, call.migration))))
  {
    var c1 := Step(o, opts, c);
    var m := call.migration;
    assert Steps(o, opts, c, fuel) == Steps(o, opts, c1, fuel - 1);
    if reply.Returns? {
      assert c1 == Config(Cleanup(m), c.calls + [call], c.lines + [line]);
      CleanupAgrees(o, opts, c1, fuel - 1);
      FinishThen(c, Invoke(call, reply), Then(Say(line), Tail(o, opts, m)));
      FinishThen(Config(c.state, c.calls + [call], c.lines), Say(line), Tail(o, opts, m));
    } else {
      assert c1 == Config(Failed(reply.ex), c.calls + [call], c.lines);
    }
  }

  /** From `CheckFile(m)`, the machine ends as `rollbackMigration(m)` and the
      rest of `fire` do. */
  lemma CheckFileAgrees(o: Oracle, opts: Options, c: Config, fuel: nat)
    requires c.state.CheckFile? && fuel >= 4
    ensures var m := c.state.m;
            Steps(o, opts, c, fuel) ==
              Finish(c, Then(Rollback.RollbackMigration(o, m), Tail(o, opts, m)))
  {
    var m := c.state.m;
    var c1 := Step(o, opts, c);
    assert Steps(o, opts, c, fuel) == Steps(o, opts, c1, fuel - 1);
    match o.fileExists
    case Throws(e) =>
      assert c.lines + [] == c.lines;
    case Returns(present) =>
      var check := Run([DoesMigrationFileExist(m)], [], Normal(()));
      var body := if present then Invoke(Call.RollbackMigration(m), o.rollback)
                  else MarkRolledBackWithConfirmation(o, m);
      var rest := Then(body, Then(Say(RolledBack(m)), Tail(o, opts, m)));
      assert Rollback.RollbackMigration(o, m) == Then(check, Then(body, Say(RolledBack(m))));
      ThenAssoc(check, Then(body, Say(RolledBack(m))), Tail(o, opts, m));
      ThenAssoc(body, Say(RolledBack(m)), Tail(o, opts, m));
      FinishThen(c, check, rest);
      assert c1.calls == c.calls + check.calls && c1.lines == c.lines + check.lines;
      if present {
        UnlogAgrees(o, opts, c1, Call.RollbackMigration(m), o.rollback, RolledBack(m), fuel - 1);
      } else {
        AskOperatorAgrees(o, opts, c1, fuel - 1);
      }
  }

  /** From `AskOperator(m)`, the machine ends as
      `markRolledBackWithConfirmation(m)`, the "rolled back" line and the
      rest of `fire` do. */
  lemma AskOperatorAgrees(o: Oracle, opts: Options, c: Config, fuel: nat)
    requires c.state.AskOperator? && fuel >= 3
    ensures var m := c.state.m;
            Steps(o, opts, c, fuel) ==
              Finish(c, Then(MarkRolledBackWithConfirmation(o, m), Then(Say(RolledBack(m)), Tail(o, opts, m))))
  {
    var m := c.state.m;
    var c1 := Step(o, opts, c);
    assert Steps(o, opts, c, fuel) == Steps(o, opts, c1, fuel - 1);
    if o.confirmed {
      var unlog := Invoke(RemoveSuccessfulMigrationFromLog(m), o.removeFromLog);
      assert MarkRolledBackWithConfirmation(o, m) == unlog;
      UnlogAgrees(o, opts, c1, RemoveSuccessfulMigrationFromLog(m), o.removeFromLog, RolledBack(m), fuel - 1);
    }
  }
}
