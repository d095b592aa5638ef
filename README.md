# python-logging-utils, modelled in Dafny

This project models the two diagnostic helpers of the repository and proves
what they promise.

- **The detailed exception traceback** (`detailed_exception_traceback.py`)
  filters noise out of a traceback in two stages. Stage 1 drops every trace
  block that contains an entry of `excluded_traces`. The surviving blocks are
  concatenated and split into lines. Stage 2 drops every line that contains an
  entry of `excluded_locals`. The surviving lines are rejoined with `'\n'`, and
  `get_custom_exc_str` puts a fixed header and footer around the result.
- **The call-logging decorator** (`log_function_call.py`) wraps a callable.
  Each call logs an entry record with the callable's name and arguments. It
  then runs the callee. After that it logs the result (unless the result is
  `None` and `log_none_return` is false) or the `Exception` raised. Finally it
  hands the result or the exception to the caller unchanged. There is a
  synchronous wrapper and a coroutine wrapper. They differ only in the
  exception record.

Files:

- `Text.dfy` (module `Text`) holds the Python string built-ins the formatter
  uses: the substring test `item in string`, `str.splitlines` and `sep.join`.
- `Traceback.dfy` (module `Traceback`) holds `_is_any_in_str` and
  `_filter_out_str`. Each is a loop method proved equal to a recursive
  function. It also holds the two-stage pipeline and `get_custom_exc_str`.
- `LogFunctionCall.dfy` (module `LogFunctionCall`) holds the logger as a class
  whose `records` sequence each `logger.log` call extends. It also holds the
  decisions of `log_after` and of the two `except Exception` branches as
  functions, and the two wrappers as methods proved against `InvocationLog`.

Inputs the model takes as given:

- The trace blocks that `traceback.TracebackException.from_exception(exc,
  capture_locals=True).format()` yields are a `seq<string>` parameter.
- `repr(exc)`, `exc.__repr__()` and the f-string renderings of `args`,
  `kwargs` and the result are string parameters.
- Whether the target is a coroutine function (`asyncio.iscoroutinefunction`)
  is a boolean parameter.
- The callee is a `CalleeRun`. It gives the records the callee logs itself and
  how the callee ends: a value, `None`, an `Exception`, or another
  `BaseException`.

The default exclusion lists are `Traceback.ExcludedTracesDefault`
(`site-packages`, `log_function_call`) and `Traceback.ExcludedLocalsDefault`
(` at 0x`, `<class `, `__`, `(No symbol)`). They are as in
detailed_exception_traceback.py:39-49. `Traceback.DefaultTraceExclusions`
and `Traceback.DefaultLocalsExclusions` state what each list drops. The
logging levels are `LogFunctionCall.Debug` (10) and `LogFunctionCall.Error`
(40). The decorator's defaults are `LogFunctionCall.DefaultConfig`, and
`LogFunctionCall.DefaultConfigLogsEveryReturn` states what they log.

## What the code guarantees, and what it does not

The model follows the code in each case.

- A noise filter of this kind is meant to keep every configured exclusion
  substring out of its whole output. The code gives this for locals
  exclusions that are non-empty and hold no newline:
  `Traceback.TracebackTextAvoidsLocals` proves that no such exclusion occurs
  anywhere in the result. Both conditions are needed:
  - an exclusion holding a newline can span two clean lines. With the block
    `"a\nb\n"` and the locals exclusion `"a\nb"`, the lines `"a"` and `"b"`
    both survive and the result is `"a\nb"`
    (`Traceback.LocalsExclusionAcrossLines`);
  - the empty exclusion occurs in every line, so it empties the output
    (`Traceback.EmptyLocalsExclusionDropsAll`), and the output `""` still
    contains `""`.
- For trace exclusions, the code only removes whole blocks, so an exclusion
  can still appear across two surviving blocks after they are concatenated.
  With the default lists, the blocks `"site-"` and `"packages\n"` both
  survive, and the result is `site-packages`
  (`Traceback.TraceExclusionAcrossBlocks`). The guarantee holds when every
  block ends with a newline, as formatted traceback blocks do:
  `Traceback.TracebackAvoidsTraceExclusions` proves it per output line, and
  `Traceback.TracebackTextAvoidsTraces` proves it for the whole result, for
  non-empty, newline-free exclusions.
- The two wrappers log a caught `Exception` differently. The synchronous
  wrapper logs `exc.__repr__()` alone, at the configured level
  (log_function_call.py:32). Only the coroutine wrapper logs at ERROR with the
  callable's name and arguments (log_function_call.py:22).

## Model

| member | source | states |
|---|---|---|
| `Text.Contains` | detailed_exception_traceback.py:90 | the left-to-right scan `Contains(s, sub)` holds exactly when `sub` occurs in `s` at some index, the meaning of Python's `sub in s` (the empty string occurs everywhere) |
| `Text.Split` | detailed_exception_traceback.py:77 | splitting on '\n' gives at least one piece, and no piece contains '\n' |
| `Text.SplitLines` | detailed_exception_traceback.py:77 | no line produced by `splitlines` contains '\n' |
| `Text.SplitLinesShape` | detailed_exception_traceback.py:77 | `splitlines` of "" is no line at all; a final newline ends the last line without adding an empty one; otherwise the lines are the '\n'-pieces |
| `Text.SplitLinesFinalNewline` | detailed_exception_traceback.py:77 | the lines of `x + "\n"` are the pieces of `x` |
| `Text.JoinSplit` | detailed_exception_traceback.py:77-78 | `'\n'.join` of the '\n'-pieces of a string gives the string back |
| `Text.SplitJoin` | detailed_exception_traceback.py:77-78 | splitting a non-empty `'\n'.join` of newline-free parts returns exactly those parts (split is the inverse of join) |
| `Text.SplitSingle` | detailed_exception_traceback.py:77 | a string without newlines is one piece |
| `Text.SplitAround` | detailed_exception_traceback.py:77 | a newline between two strings separates their pieces: the pieces of `x + "\n" + y` are those of `x` followed by those of `y` |
| `Text.SplitLastPiece` | detailed_exception_traceback.py:77 | the last '\n'-piece is empty exactly when the string is empty or ends with a newline |
| `Text.JoinSplitLines` | detailed_exception_traceback.py:77-78 | rejoining the lines of a string with '\n' restores the string, less one final newline |
| `Text.SplitLinesJoin` | detailed_exception_traceback.py:77-78 | the lines of a `'\n'.join` of newline-free parts are all the parts but the last when the last part is empty, and exactly the parts otherwise |
| `Text.SplitLinesAppend` | detailed_exception_traceback.py:76-77 | after a completed line (or nothing), the lines of a concatenation are the lines of the two parts in order |
| `Text.Join` | detailed_exception_traceback.py:76 | every part occurs as a substring of `sep.join(parts)` |
| `Text.NewlineFreeInJoin` | detailed_exception_traceback.py:78 | a non-empty, newline-free string that occurs in a `'\n'.join` occurs in one of the joined parts |
| `Text.LineInText` | detailed_exception_traceback.py:77 | every line of a string occurs as a substring of it |
| `Traceback.AnyIn` | detailed_exception_traceback.py:88-92 | `AnyIn(s, L)` holds exactly when some item of `L` is a substring of `s`, and so never for an empty `L` |
| `Traceback.DefaultTraceExclusions` | detailed_exception_traceback.py:39-42 | with the default `excluded_traces` a block is dropped exactly when it contains `site-packages` or `log_function_call` |
| `Traceback.DefaultLocalsExclusions` | detailed_exception_traceback.py:44-49 | with the default `excluded_locals` a line is dropped exactly when it contains ` at 0x`, `<class `, `__` or `(No symbol)` |
| `Traceback.IsAnyInStr` | detailed_exception_traceback.py:88-92 | the loop with an early `return True` returns `AnyIn(s, L)`, that is true exactly when some item of `L` is a substring of `s` |
| `Traceback.FilterOutIndices` | detailed_exception_traceback.py:82-85 | the filter's output is the input read at a strictly ascending list of indices, and an index is on it exactly when its string contains no excluded item: the filter only deletes, keeps order, and keeps every clean string |
| `Traceback.FilterOut` | detailed_exception_traceback.py:82-85 | a string is in the output exactly when it is in the input and contains no excluded item; the output is no longer than the input |
| `Traceback.FilterOutIdempotent` | detailed_exception_traceback.py:82-85 | filtering the output again with the same list changes nothing |
| `Traceback.FilterOutNothingExcluded` | detailed_exception_traceback.py:82-85 | with an empty exclusion list the filter is the identity |
| `Traceback.FilterOutAllClean` | detailed_exception_traceback.py:82-85 | a filter applied to strings that all avoid the exclusions keeps them all |
| `Traceback.FilterOutStr` | detailed_exception_traceback.py:82-85 | the generator loop yields exactly `FilterOut(ss, L)`, in order |
| `Traceback.SurvivingBlocks` | detailed_exception_traceback.py:75 | a block survives stage 1 exactly when it is one of the blocks and contains no `excluded_traces` entry |
| `Traceback.StageTwoInput` | detailed_exception_traceback.py:76-77 | the stage-2 input lines hold no '\n', and rejoined with '\n' they give the `''`-concatenation of the surviving blocks back, less one final newline |
| `Traceback.SurvivingLines` | detailed_exception_traceback.py:77 | a line survives stage 2 exactly when it is a stage-2 input line and contains no `excluded_locals` entry; no surviving line contains '\n' |
| `Traceback.TracebackText` | detailed_exception_traceback.py:78 | the result is empty when no line survives stage 2; otherwise splitting it on '\n' gives exactly the surviving lines |
| `Traceback.TracebackLinesClean` | detailed_exception_traceback.py:75-78 | every line of the result is a line of the concatenated surviving blocks and contains no `excluded_locals` entry; the result's lines are all the stage-2 survivors in order but the last when the last survivor is empty, and exactly the survivors otherwise |
| `Traceback.TracebackComplete` | detailed_exception_traceback.py:77-78 | every line of the concatenated surviving blocks that contains no `excluded_locals` entry is a '\n'-piece of the result (one of its `Split` pieces) |
| `Traceback.TracebackCompleteLines` | detailed_exception_traceback.py:77-78 | every non-empty line of the concatenated surviving blocks that contains no `excluded_locals` entry is a line of the result in the `splitlines` sense; it is stated for non-empty lines because a trailing empty survivor is not a line of its own (`TracebackLinesClean`) |
| `Traceback.TracebackRefilterStable` | detailed_exception_traceback.py:77-78 | filtering the result's lines again with `excluded_locals` removes nothing |
| `Traceback.TracebackNoExclusions` | detailed_exception_traceback.py:75-78 | with both exclusion lists empty the result is the concatenated trace less one final newline |
| `Traceback.LinesOfConcatenation` | detailed_exception_traceback.py:76-77 | when every block ends with a newline, the lines of the `''`-concatenation are the lines of the blocks, taken block by block |
| `Traceback.LineOfSomeBlock` | detailed_exception_traceback.py:76-77 | each such line lies inside one of the blocks |
| `Traceback.FreeWithin` | detailed_exception_traceback.py:84 | a substring of a string that avoids every exclusion also avoids them |
| `Traceback.TracebackAvoidsTraceExclusions` | detailed_exception_traceback.py:75-78 | when every block ends with a newline, no line of the result contains an `excluded_traces` entry |
| `Traceback.TracebackTextAvoidsLocals` | detailed_exception_traceback.py:75-78 | no non-empty, newline-free `excluded_locals` entry occurs anywhere in the result |
| `Traceback.TracebackTextAvoidsTraces` | detailed_exception_traceback.py:75-78 | when every block ends with a newline, no non-empty, newline-free `excluded_traces` entry occurs anywhere in the result |
| `Traceback.TwoLinesOneBlock` | detailed_exception_traceback.py:75-78 | a block of two newline-free lines, each shorter than the only locals exclusion, comes out as those two lines joined with '\n' |
| `Traceback.LocalsExclusionAcrossLines` | detailed_exception_traceback.py:77-78 | with the block `"a\nb\n"` and the locals exclusion `"a\nb"`, the result is `"a\nb"`, which contains the exclusion |
| `Traceback.FilterOutEmptyItem` | detailed_exception_traceback.py:82-92 | an empty exclusion occurs in every string, so the filter keeps nothing |
| `Traceback.EmptyLocalsExclusionDropsAll` | detailed_exception_traceback.py:77-78 | with the locals exclusion `""` the result is empty |
| `Traceback.TwoShortBlocks` | detailed_exception_traceback.py:75-78 | with the default lists, two short blocks `p` and `q + "\n"` without ' ', '<', '_', '(' or '\n' come out as the single line `p + q` |
| `Traceback.TraceExclusionAcrossBlocks` | detailed_exception_traceback.py:75-76 | with the default lists, the blocks `"site-"` and `"packages\n"` both survive stage 1 and the result is `site-packages`, a trace exclusion |
| `Traceback.GetCustomExceptionTraceback` | detailed_exception_traceback.py:69-79 | with the keyword-only exclusion lists defaulting to the module's defaults, the composition (stage-1 filter, `''.join`, `splitlines`, stage-2 filter, `'\n'.join`) returns `TracebackText`, and every line of its result is a stage-2 input line free of `excluded_locals` |
| `Traceback.GetCustomExcStr` | detailed_exception_traceback.py:62-66 | returns exactly `"\nCustom Exception Message for " + repr + ": \n" + msg + "\n"`, where `msg` is the traceback filtered with the default exclusion lists |
| `LogFunctionCall.Logger.constructor` | log_function_call.py:7 | a fresh sink holds no records |
| `LogFunctionCall.Logger.Log` | log_function_call.py:12 | one `logger.log(level, msg)` call appends exactly the record `(level, msg)` |
| `LogFunctionCall.ReturnRecords` | log_function_call.py:9-13 | `log_after` logs nothing exactly when the result is `None` and `log_none_return` is false; otherwise it logs the one record `"{name} returns {result}"` at `level` |
| `LogFunctionCall.ExceptionRecord` | log_function_call.py:21-32 | the exception record is `(ERROR, "Exception in {name} {args}, {kwargs}: {repr}")` on the coroutine path and `(level, repr)` on the synchronous path |
| `LogFunctionCall.ExitRecords` | log_function_call.py:9-34 | the wrapper logs at most one record after the callee; it logs none exactly for a suppressed `None` or a non-`Exception` `BaseException`; an `Exception` gives the exception record and a return gives `log_after`'s record |
| `LogFunctionCall.InvocationLog` | log_function_call.py:9-34 | an invocation logs the entry record `(level, "{name} {args}, {kwargs}")` first, then exactly the callee's own records, then exactly the exit records |
| `LogFunctionCall.Render` | log_function_call.py:12 | the rendering `{result}` of a returned value: `None` for `None`, the value's own text otherwise; `DefaultConfigLogsEveryReturn` and `AddExample` state its use |
| `LogFunctionCall.EntryMessage` | log_function_call.py:28 | the entry message `f'{func.__name__} {args}, {kwargs}'`, shared by both wrappers (also log_function_call.py:18); `InvocationLog` and `AddExample` state its use |
| `LogFunctionCall.EntryRecord` | log_function_call.py:18 | the entry record, at the configured `level`, that both wrappers log first (also log_function_call.py:28); `InvocationLog` states its place |
| `LogFunctionCall.DefaultConfigLogsEveryReturn` | log_function_call.py:7-13 | with the defaults `level=DEBUG` and `log_none_return=True`, every successful call logs the DEBUG entry record, the callee's records and a DEBUG return record, `"{name} returns None"` for `None` |
| `LogFunctionCall.SuccessRecordCount` | log_function_call.py:9-34 | a successful call adds one or two records of the wrapper's own, and one exactly when a `None` result is suppressed |
| `LogFunctionCall.NoneReturnSuppressed` | log_function_call.py:10-11 | a `None` result with `log_none_return` false leaves the entry record as the wrapper's only record |
| `LogFunctionCall.ReturnLogged` | log_function_call.py:12-13 | otherwise a successful call ends with one return record at `level` |
| `LogFunctionCall.ExceptionLogged` | log_function_call.py:19-33 | a raised `Exception` adds exactly the exception record after the callee's records, so there are two wrapper records and no return record |
| `LogFunctionCall.BaseExceptionNotCaught` | log_function_call.py:29-31 | a `BaseException` that is not an `Exception` leaves only the entry record |
| `LogFunctionCall.PathsAgreeExceptOnException` | log_function_call.py:15-34 | the synchronous and coroutine wrappers log the same records whenever no `Exception` is raised |
| `LogFunctionCall.AddExample` | log_function_call.py:26-34 | wrapping `add` with the defaults and calling it with `(2, 3)` logs `add (2, 3), {}` and then `add returns 5`, both at DEBUG |
| `LogFunctionCall.RunCallee` | log_function_call.py:30 | running the callee appends its own records and yields its outcome |
| `LogFunctionCall.LogAfter` | log_function_call.py:9-13 | appends `ReturnRecords` to the log and returns the result unchanged |
| `LogFunctionCall.SyncWrapper` | log_function_call.py:26-34 | the synchronous wrapper appends exactly `InvocationLog` for a non-coroutine target and returns or re-raises the callee's outcome unchanged |
| `LogFunctionCall.AsyncWrapper` | log_function_call.py:16-24 | the coroutine wrapper appends exactly `InvocationLog` for a coroutine target and returns or re-raises the awaited outcome unchanged |
| `LogFunctionCall.Invoke` | log_function_call.py:15-35 | the wrapper chosen by `iscoroutinefunction` appends `InvocationLog` and propagates the callee's outcome unchanged |

## Left out

- Building the trace blocks (`traceback.TracebackException.from_exception(...,
  capture_locals=True)` and `.format()`) is left out. That covers cause and
  context chaining, frame walking and the rendering of locals. It is CPython's
  library, so the blocks are an input.
- `repr(exc)`, `exc.__repr__()` and the f-string rendering of arguments and
  results depend on the runtime, so they are given strings.
- GetCustomExcStr: the `exc=None` path, which looks up the exception being
  handled with `sys.exc_info()`, is left out. The exception's repr and blocks
  are always passed in. This is ambient process state.
- `handle_uncaught_exception` (detailed_exception_traceback.py:52-59) is left
  out. It is a `sys.excepthook` that passes the formatted string to
  `logging.getLogger().exception`. That is process-wide state and I/O.
- The `logging` module is left out. Levels, handlers and filtering are not
  modelled: the sink records every `logger.log` call.
- Coroutines are left out. `asyncio.iscoroutinefunction`, awaiting, scheduling
  and interleaving with other tasks are outside the model. "Is a coroutine
  function" is a boolean, and the awaited result is a plain outcome.
  `AsyncWrapper` records what one logical invocation logs, from the first time
  it is awaited to its end.
- `functools.wraps` is left out. Copying the callable's name and docstring is
  reflection.
- SplitLines: only '\n' is a line boundary. Python's `str.splitlines` also
  splits on `\r`, `\r\n`, `\x0b`, `\x0c`, `\x1c`-`\x1e`, `\x85`, `\u2028` and
  `\u2029`. The rules for "" and for a final newline are as in Python.
- The usage examples in the module docstring
  (detailed_exception_traceback.py:2-29) are documentation, not code.
- `_filter_out_str` is a lazy generator. `FilterOutStr` builds the whole list,
  which is what `''.join` and `'\n'.join` consume.
