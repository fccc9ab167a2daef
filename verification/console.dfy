/**
 * The abstract console command every migration command extends
 * (src/Commands/AbstractCommand.php): aborting by exception, and turning the
 * way a command body ended into the command's exit status.
 *
 * A piece of command code is modelled as a `Run`: the calls it made on its
 * collaborator (of type `C`, left abstract here), the lines it wrote to the
 * console, and whether it returned a value or threw.
 */
module Console {

  /** What command code may throw. PHP separates `DomainException` (the one
      `abort` throws), every other `Exception` (with an integer code and a
      message), and engine `Error`s, which are not `Exception`s at all. */
  datatype Throwable =
    | DomainException
    | OtherException(code: int, message: string)
    | EngineError

  /** A line written to the console, by the helper that wrote it: `error`
      and `info` wrap their text in a markup tag, `message` writes it as it
      is. The tags they add are left out. */
  datatype Line =
    | ErrorLine(text: string)
    | InfoLine(text: string)
    | MessageLine(text: string)

  /** The text of the closing error line of every failed command. */
  const AbortText := "Abort!"

  /** How a piece of code ended: it returned a value or it threw. */
  datatype Flow<+T> = Normal(value: T) | Raised(ex: Throwable)

  datatype Run<C, T> = Run(calls: seq<C>, lines: seq<Line>, flow: Flow<T>)

  /** The result handed back to the console application: an exit code, or a
      throwable that `execute` does not catch. */
  datatype Status = Exit(code: int) | Uncaught(ex: Throwable)

  datatype Execution<C> = Execution(calls: seq<C>, lines: seq<Line>, status: Status)

  /** Code that returns `v` without calling or writing anything. */
  function Return<C, T>(v: T): Run<C, T>
  {
    Run([], [], Normal(v))
  }

  /** Code that only writes `line`. */
  function Say<C>(line: Line): Run<C, ()>
  {
    Run([], [line], Normal(()))
  }

  /** Statement sequencing under exceptions: `next` happens only when
      `first` returned normally. */
  function Then<C, T>(first: Run<C, ()>, next: Run<C, T>): Run<C, T>
  {
    match first.flow
    case Raised(e) => Run(first.calls, first.lines, Raised(e))
    case Normal(_) => Run(first.calls + next.calls, first.lines + next.lines, next.flow)
  }

  /** PHP truthiness of a string: the empty string and "0" are false. */
  predicate PhpTruthy(s: string)
  {
    s != "" && s != "0"
  }

  /** Code that never returns normally: the lines it wrote before throwing
      `ex`. */
  datatype Thrown = Thrown(lines: seq<Line>, ex: Throwable)

  /** Code that writes the lines of `t` and throws its throwable. */
  function Raise<C, T>(t: Thrown): Run<C, T>
  {
    Run([], t.lines, Raised(t.ex))
  }

  /** `abort`: writes the message (when it is truthy), then "Abort!", and
      always throws a `DomainException`; its result type has no way to
      return normally. */
  function Abort(message: string): (r: Thrown)
    ensures r.ex == DomainException
    ensures |r.lines| > 0 && r.lines[|r.lines| - 1] == ErrorLine(AbortText)
    ensures |r.lines| == 2 <==> PhpTruthy(message)
    ensures |r.lines| == 2 ==> r.lines[0] == ErrorLine(message)
    ensures |r.lines| <= 2
  {
    var said := if PhpTruthy(message) then [ErrorLine(message)] else [];
    Thrown(said + [ErrorLine(AbortText)], DomainException)
  }

  /** `execute`: the exit status of a command whose body `fire` ran as `fired`. */
  function Execute<C>(fired: Run<C, int>): (e: Execution<C>)
    ensures e.calls == fired.calls
    ensures fired.lines <= e.lines
    ensures fired.flow.Normal? ==> e.status == Exit(fired.flow.value)
    ensures fired.flow == Raised(DomainException) ==> e.status == Exit(1)
    ensures fired.flow.Raised? && fired.flow.ex.OtherException? ==>
              && e.status == Exit(fired.flow.ex.code)
              && e.lines == fired.lines + [ErrorLine(fired.flow.ex.message), ErrorLine(AbortText)]
    ensures e.lines != fired.lines <==> fired.flow.Raised? && fired.flow.ex.OtherException?
    ensures e.status.Uncaught? <==> fired.flow == Raised(EngineError)
  {
    match fired.flow
    case Normal(v) => Execution(fired.calls, fired.lines, Exit(v))
    case Raised(DomainException) => Execution(fired.calls, fired.lines, Exit(1))
    case Raised(OtherException(code, message)) =>
      Execution(fired.calls, fired.lines + [ErrorLine(message), ErrorLine(AbortText)], Exit(code))
    case Raised(EngineError) => Execution(fired.calls, fired.lines, Uncaught(EngineError))
  }

  /** Nothing after `abort` runs, and the command then exits with status 1
      without writing anything more. */
  lemma AbortNeverReturns<C>(before: Run<C, ()>, message: string, after: Run<C, int>)
    requires before.flow.Normal?
    ensures var fired := Then(before, Then(Raise(Abort(message)), after));
            && fired.calls == before.calls
            && fired.lines == before.lines + Abort(message).lines
            && fired.flow == Raised(DomainException)
            && Execute(fired).status == Exit(1)
            && Execute(fired).lines == fired.lines
  {
  }

  /** Exit status 1 is ambiguous: it is the abort status, but a body that
      returns 1 or throws an ordinary exception with code 1 gives it too. */
  lemma ExitOneMeans<C>(fired: Run<C, int>)
    ensures Execute(fired).status == Exit(1) <==>
              || fired.flow == Normal(1)
              || fired.flow == Raised(DomainException)
              || (fired.flow.Raised? && fired.flow.ex.OtherException? && fired.flow.ex.code == 1)
  {
  }

  /** Exit status 0 does not imply success: an ordinary exception with code
      0 (the default code of a PHP exception) exits with 0 too. */
  lemma ExitZeroMeans<C>(fired: Run<C, int>)
    ensures Execute(fired).status == Exit(0) <==>
              || fired.flow == Normal(0)
              || (fired.flow.Raised? && fired.flow.ex.OtherException? && fired.flow.ex.code == 0)
  {
  }
}
