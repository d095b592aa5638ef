/** The `log_function_call(logger, level, log_none_return)` decorator: one
    invocation of the wrapped callable logs an entry record, runs the callee,
    then logs its result (`log_after`) or the exception it raised, and hands
    the callee's result or exception to the caller unchanged. Both the
    synchronous wrapper and the coroutine wrapper are modelled. */
module LogFunctionCall {

  /** The numeric levels of Python's `logging` module used by the decorator. */
  const Debug: int := 10
  const Error: int := 40

  /** One call of `logger.log(level, message)`. */
  datatype Record = Record(level: int, message: string)

  /** The logging sink: every `logger.log` call appends one record. Level
      filtering and handlers belong to the `logging` module and are not modelled. */
  class Logger {
    var records: seq<Record>

    constructor ()
      ensures records == []
    {
      records := [];
    }

    method Log(level: int, message: string)
      modifies this
      ensures records == old(records) + [Record(level, message)]
    {
      records := records + [Record(level, message)];
    }
  }

  /** The decorator's parameters `level` and `log_none_return`. */
  datatype Config = Config(level: int, logNoneReturn: bool)

  /** `log_function_call`'s defaults: `level=logging.DEBUG`, `log_none_return=True`. */
  const DefaultConfig: Config := Config(Debug, true)

  /** The wrapped callable: its `__name__` and whether
      `asyncio.iscoroutinefunction` holds of it. */
  datatype Target = Target(name: string, isCoroutine: bool)

  /** The arguments of one invocation, as their f-string renderings of the
      `args` tuple and the `kwargs` dict. */
  datatype Arguments = Arguments(args: string, kwargs: string)

  /** A value returned by the callee: `None`, or another value together with
      its f-string rendering. */
  datatype Value<V> = NoneValue | Some(value: V, text: string)

  /** A raised exception: its `__repr__()`, and whether it is an instance of
      `Exception` (false for other `BaseException`s such as a cancellation). */
  datatype Exc = Exc(isException: bool, repr: string)

  /** How a call ends: with a returned value or with a raised exception. */
  datatype Outcome<V> = Returned(result: Value<V>) | Raised(exc: Exc)

  /** What the callee does when run: the records it logs itself, and how it ends. */
  datatype CalleeRun<V> = CalleeRun(log: seq<Record>, outcome: Outcome<V>)

  /** The f-string rendering `{result}` of a returned value. */
  function Render<V>(v: Value<V>): string {
    match v
    case NoneValue => "None"
    case Some(_, text) => text
  }

  /** `f'{func.__name__} {args}, {kwargs}'`. */
  function EntryMessage(name: string, a: Arguments): string {
    name + " " + a.args + ", " + a.kwargs
  }

  /** The first record of every invocation. */
  function EntryRecord(cfg: Config, target: Target, a: Arguments): Record {
    Record(cfg.level, EntryMessage(target.name, a))
  }

  /** `log_after`'s decision: nothing for `None` when `log_none_return` is
      false, otherwise one return record at the configured level. */
  function ReturnRecords<V>(cfg: Config, name: string, result: Value<V>): (rs: seq<Record>)
    ensures rs == [] <==> result == NoneValue && !cfg.logNoneReturn
    ensures |rs| <= 1
    ensures forall r :: r in rs ==> r == Record(cfg.level, name + " returns " + Render(result))
  {
    if result.NoneValue? && !cfg.logNoneReturn then []
    else [Record(cfg.level, name + " returns " + Render(result))]
  }

  /** The record of a caught exception: at ERROR with name, arguments and repr
      on the coroutine path; at the configured level with the repr alone on
      the synchronous path. */
  function ExceptionRecord(cfg: Config, target: Target, a: Arguments, exc: Exc): (r: Record)
    ensures target.isCoroutine ==>
      r == Record(Error, "Exception in " + EntryMessage(target.name, a) + ": " + exc.repr)
    ensures !target.isCoroutine ==> r == Record(cfg.level, exc.repr)
  {
    if target.isCoroutine then Record(Error, "Exception in " + target.name + " " + a.args + ", " + a.kwargs + ": " + exc.repr)
    else Record(cfg.level, exc.repr)
  }

  /** The records the wrapper logs after the callee ends: the return record,
      or the exception record for an `Exception` (only `Exception` is caught). */
  function ExitRecords<V>(cfg: Config, target: Target, a: Arguments, outcome: Outcome<V>): (rs: seq<Record>)
    ensures |rs| <= 1
    ensures rs == [] <==>
      (outcome == Returned(NoneValue) && !cfg.logNoneReturn) || (outcome.Raised? && !outcome.exc.isException)
    ensures outcome.Raised? && outcome.exc.isException ==> rs == [ExceptionRecord(cfg, target, a, outcome.exc)]
    ensures outcome.Returned? ==> rs == ReturnRecords(cfg, target.name, outcome.result)
  {
    match outcome
    case Returned(result) => ReturnRecords(cfg, target.name, result)
    case Raised(exc) => if exc.isException then [ExceptionRecord(cfg, target, a, exc)] else []
  }

  /** Everything logged during one invocation: the entry record, what the
      callee itself logs, then the wrapper's exit records. */
  function InvocationLog<V>(cfg: Config, target: Target, a: Arguments, run: CalleeRun<V>): (rs: seq<Record>)
    ensures |rs| == 1 + |run.log| + |ExitRecords(cfg, target, a, run.outcome)|
    ensures rs[0] == EntryRecord(cfg, target, a)
    ensures rs[1..1 + |run.log|] == run.log
    ensures rs[1 + |run.log|..] == ExitRecords(cfg, target, a, run.outcome)
  {
    [EntryRecord(cfg, target, a)] + run.log + ExitRecords(cfg, target, a, run.outcome)
  }

  /** A successful call adds one or two records of the wrapper's own, and two
      exactly when the result is logged. */
  lemma SuccessRecordCount<V>(cfg: Config, target: Target, a: Arguments, run: CalleeRun<V>)
    requires run.outcome.Returned?
    ensures var own := |InvocationLog(cfg, target, a, run)| - |run.log|;
      (own == 1 <==> run.outcome.result == NoneValue && !cfg.logNoneReturn) && (own == 1 || own == 2)
  {
  }

  /** When the callee returns `None` and `log_none_return` is false, the entry
      record is the wrapper's only record. */
  lemma NoneReturnSuppressed<V>(cfg: Config, target: Target, a: Arguments, log: seq<Record>)
    requires !cfg.logNoneReturn
    ensures InvocationLog(cfg, target, a, CalleeRun<V>.CalleeRun(log, Returned(NoneValue)))
         == [EntryRecord(cfg, target, a)] + log
  {
  }

  /** Otherwise a successful call ends with one return record at the
      configured level. */
  lemma ReturnLogged<V>(cfg: Config, target: Target, a: Arguments, log: seq<Record>, result: Value<V>)
    requires result != NoneValue || cfg.logNoneReturn
    ensures InvocationLog(cfg, target, a, CalleeRun(log, Returned(result)))
         == [EntryRecord(cfg, target, a)] + log + [Record(cfg.level, target.name + " returns " + Render(result))]
  {
  }

  /** A raised `Exception` adds exactly one record after the callee's, the
      exception record, and no return record. */
  lemma ExceptionLogged<V>(cfg: Config, target: Target, a: Arguments, log: seq<Record>, exc: Exc)
    requires exc.isException
    ensures var rs := InvocationLog(cfg, target, a, CalleeRun<V>.CalleeRun(log, Raised(exc)));
      && rs == [EntryRecord(cfg, target, a)] + log + [ExceptionRecord(cfg, target, a, exc)]
      && |rs| - |log| == 2
  {
  }

  /** A `BaseException` that is not an `Exception` passes with only the entry
      record logged. */
  lemma BaseExceptionNotCaught<V>(cfg: Config, target: Target, a: Arguments, log: seq<Record>, exc: Exc)
    requires !exc.isException
    ensures InvocationLog(cfg, target, a, CalleeRun<V>.CalleeRun(log, Raised(exc))) == [EntryRecord(cfg, target, a)] + log
  {
  }

  /** The synchronous and the coroutine wrapper log the same records except
      for the exception record. */
  lemma PathsAgreeExceptOnException<V>(cfg: Config, name: string, a: Arguments, run: CalleeRun<V>)
    requires !(run.outcome.Raised? && run.outcome.exc.isException)
    ensures InvocationLog(cfg, Target(name, true), a, run) == InvocationLog(cfg, Target(name, false), a, run)
  {
  }

  /** With the defaults every successful call, `None` included, ends with a
      DEBUG return record. */
  lemma DefaultConfigLogsEveryReturn<V>(target: Target, a: Arguments, log: seq<Record>, result: Value<V>)
    ensures InvocationLog(DefaultConfig, target, a, CalleeRun(log, Returned(result)))
         == [Record(Debug, EntryMessage(target.name, a))] + log
            + [Record(Debug, target.name + " returns " + Render(result))]
    ensures result == NoneValue ==>
      ExitRecords(DefaultConfig, target, a, Returned(result)) == [Record(Debug, target.name + " returns None")]
  {
    if result == NoneValue {
      assert Render(result) == "None";
      assert target.name + " returns " + "None" == target.name + " returns None";
    }
  }

  /** `add(2, 3)` wrapped with the defaults logs its entry with the arguments
      and its return value 5. */
  lemma AddExample()
    ensures InvocationLog(DefaultConfig, Target("add", false), Arguments("(2, 3)", "{}"),
                          CalleeRun<int>.CalleeRun([], Returned(Some(5, "5"))))
         == [Record(Debug, "add (2, 3), {}"), Record(Debug, "add returns 5")]
  {
    assert EntryMessage("add", Arguments("(2, 3)", "{}")) == "add (2, 3), {}";
    assert "add" + " returns " + "5" == "add returns 5";
  }

  /** The callee, run against the shared logger: it logs its own records and
      ends as `run` says. It stands for `func(*args, **kwargs)`, or for awaiting
      `func(*args, **kwargs)` on the coroutine path. */
  method RunCallee<V>(logger: Logger, run: CalleeRun<V>) returns (outcome: Outcome<V>)
    modifies logger
    ensures logger.records == old(logger.records) + run.log
    ensures outcome == run.outcome
  {
    logger.records := logger.records + run.log;
    outcome := run.outcome;
  }

  /** `log_after`: log the result unless it is a suppressed `None`, and return it. */
  method LogAfter<V>(logger: Logger, cfg: Config, name: string, result: Value<V>) returns (r: Value<V>)
    modifies logger
    ensures logger.records == old(logger.records) + ReturnRecords(cfg, name, result)
    ensures r == result
  {
    if result.NoneValue? && !cfg.logNoneReturn {
      return result;
    }
    logger.Log(cfg.level, name + " returns " + Render(result));
    return result;
  }

  /** The synchronous `wrapper`. The outcome it returns is what the caller
      sees: the value returned, or the exception re-raised. */
  method SyncWrapper<V>(logger: Logger, cfg: Config, name: string, a: Arguments, run: CalleeRun<V>)
    returns (outcome: Outcome<V>)
    modifies logger
    ensures logger.records == old(logger.records) + InvocationLog(cfg, Target(name, false), a, run)
    ensures outcome == run.outcome
  {
    logger.Log(cfg.level, name + " " + a.args + ", " + a.kwargs);
    outcome := RunCallee(logger, run);
    match outcome
    case Raised(exc) =>
      if exc.isException {
        logger.Log(cfg.level, exc.repr);
      }
    case Returned(result) =>
      var r := LogAfter(logger, cfg, name, result);
      outcome := Returned(r);
  }

  /** The coroutine `wrapper`, from the first time it is awaited to its end. */
  method AsyncWrapper<V>(logger: Logger, cfg: Config, name: string, a: Arguments, run: CalleeRun<V>)
    returns (outcome: Outcome<V>)
    modifies logger
    ensures logger.records == old(logger.records) + InvocationLog(cfg, Target(name, true), a, run)
    ensures outcome == run.outcome
  {
    logger.Log(cfg.level, name + " " + a.args + ", " + a.kwargs);
    outcome := RunCallee(logger, run);
    match outcome
    case Raised(exc) =>
      if exc.isException {
        logger.Log(Error, "Exception in " + name + " " + a.args + ", " + a.kwargs + ": " + exc.repr);
      }
    case Returned(result) =>
      var r := LogAfter(logger, cfg, name, result);
      outcome := Returned(r);
  }

  /** One invocation of the callable returned by `log_wrapper(func)`: the
      coroutine wrapper when `func` is a coroutine function, the synchronous
      one otherwise. */
  method Invoke<V>(logger: Logger, cfg: Config, target: Target, a: Arguments, run: CalleeRun<V>)
    returns (outcome: Outcome<V>)
    modifies logger
    ensures logger.records == old(logger.records) + InvocationLog(cfg, target, a, run)
    ensures outcome == run.outcome
  {
    if target.isCoroutine {
      outcome := AsyncWrapper(logger, cfg, target.name, a, run);
    } else {
      outcome := SyncWrapper(logger, cfg, target.name, a, run);
    }
  }
}
