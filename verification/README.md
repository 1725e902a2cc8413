# Mini calculator server: history log and calculate step

This project models the core of a small calculator web service. The service
evaluates arithmetic expressions that may contain percent literals. It keeps
a bounded history of every calculation attempt. The model covers two parts:

- **The history log.** It is a `deque(maxlen=HISTORY_MAX)` with
  `HISTORY_MAX = 1000`. Records stay in insertion order, and a full log drops
  its oldest record before it takes a new one. Three operations act on it:
  append, the history query ("the newest `limit` records, oldest first") and
  clear.
- **The calculate step.** It expands percent literals, runs the sandboxed
  evaluator and turns the outcome into a response. It then appends exactly one
  history record. There are three outcomes:
  - success;
  - the evaluator reported errors, which are joined with `"; "`, after which
    the evaluator's error list is cleared;
  - an exception was raised, which gives a record with a null result.

Modules:

- `records.dfy`, module `Records`: the result value, the history record and
  the response.
- `history.dfy`, module `HistoryLog`:
  - `KeepNewest`, the reference meaning of a bounded FIFO log (drop the oldest
    record until the log fits);
  - `Pushed` and `PushAll`, one deque append and a sequence of them;
  - `Recent`, the history query;
  - the class `History`, which holds the log as a `seq` and a `capacity`
    under the invariant `|log| <= capacity`.
- `calculation.dfy`, module `Calculation`:
  - `Join`, Python's `str.join`, with lemmas that fix its length, its
    emptiness and where each message and separator sits;
  - the class `Evaluator`, the shared interpreter reduced to its error list;
  - `Calculate`.

The percent expander and the evaluator are foreign code. What they did for one
request enters `Calculate` as an `Outcome`, which is one of:

- `Evaluated(value, reported)`: the evaluator ran, returned `value` and left
  the messages `reported` in its error list;
- `Raised(message)`: the expander or the evaluator raised an exception.

The clock reading is a `timestamp` parameter. The module-level `history` and
`aeval` objects are passed to `Calculate` as parameters.

Two details of the code's record format:

- When the evaluator reports errors, the code stores and returns the empty
  string `""` as `result`, not an absent or null result.
- The code does not guarantee a non-empty `error` on failure. An exception
  with empty text, or a single empty evaluator message, gives `error == ""`.
  `Calculate` promises a non-empty error only when every reported message is
  non-empty.

## Model

| member | source | states |
|---|---|---|
| `HistoryLog.KeepNewestIsSuffix` | main.py:10-11 | a log bounded by `n` keeps exactly the newest `min(len, n)` records, in their original order |
| `HistoryLog.Pushed` | main.py:49 | one append to a deque with maximum length `cap` gives a log of length `min(len + 1, cap)` that ends with the new record |
| `HistoryLog.PushedKeepsNewest` | main.py:10-11 | an append keeps the new record and drops only the oldest one, and only when the log was full (FIFO eviction, order kept) |
| `HistoryLog.PushAll` | main.py:49 | after any number of appends the log never holds more than its capacity |
| `HistoryLog.PushAllKeepsNewest` | main.py:10-11 | after any sequence of appends the log is exactly the newest `cap` records of everything it has held, oldest first |
| `HistoryLog.Overflow` | main.py:10-11 | after `cap + k` appends (`k > 0`) to an empty log, it holds exactly the last `cap` appended records, in order |
| `HistoryLog.Recent` | main.py:65-69 | for `1 <= limit <= 1000`, the history query returns `min(limit, len)` records: the newest ones, oldest first, as the bounded-log reference defines them; an empty log gives an empty answer |
| `HistoryLog.RecentAfterAppends` | main.py:64-69 | after a clear and a run of appends, a query with `limit <= capacity` returns the last `limit` appended records in append order |
| `HistoryLog.History.constructor` | main.py:11 | a new history is empty and has the given positive capacity |
| `HistoryLog.History.Append` | main.py:49 | the log keeps `len <= capacity`; a full log loses its first record and gains the new one at the end; otherwise the new record is added at the end |
| `HistoryLog.History.Clear` | main.py:76 | from any state the log becomes empty, so repeated clears are harmless |
| `Calculation.JoinLength` | main.py:36 | the joined error text is the messages' total length plus one separator between each pair of neighbours |
| `Calculation.JoinAt` | main.py:36 | message `i` appears in the joined text at the offset that all earlier messages and separators take up (list order) |
| `Calculation.JoinSeparatorAt` | main.py:36 | between message `i` and message `i + 1` the joined text holds exactly one `"; "` |
| `Calculation.JoinEmptyIff` | main.py:36 | the joined text is empty exactly when there are no messages or there is a single empty message |
| `Calculation.Evaluator.constructor` | main.py:23 | a fresh interpreter has no pending errors |
| `Calculation.Calculate` | main.py:27-62 | appends exactly one record on every branch, with FIFO eviction. The response and the record both carry the original `expr`, and the record copies the response's `ok`, `error` and `result` (a missing result is stored as null). The outcome is `ok` exactly when the evaluator ran and reported no error, and then `error == ""` and `result` is the evaluator's value. With reported errors: `result == ""`, `error` is the messages joined by `"; "` and is non-empty when every message is, and the evaluator's error list is left empty. On an exception: no result in the response, `error` is the exception text, and the error list is untouched |
| `Calculation.HistoryAfterClear` | test_main.py:47-59 | after a clear and the calculations `1+1`, `2*2`, `3/3`, a query with limit 2 returns `2*2` then `3/3`; a clear, another calculation and a second clear then leave an empty history |

## Left out

- Percent expansion (`expand_percent` from `calculator.py`): calculator.py is not part of this model. Only its effect on one request enters, as the `Outcome`.
- The `asteval` interpreter, its grammar, the constants `pi` and `e`, and the floating-point values it computes. The evaluator is reduced to the value it returns and the error messages it leaves behind. Each message is already the text `str(e.get_error())`.
- `Calculation.Calculate`: an exception raised inside the evaluator after it has recorded errors is not modelled. `Raised` leaves the error list as it was, which is what happens when the percent expander raises.
- Clock readings (`datetime.now().isoformat()`) become the `timestamp` parameter.
- The HTTP layer is left out: FastAPI routing, CORS, JSON rendering, the `limit` query parameter's default of 10 and its range check, and the clear endpoint's fixed message. The range check becomes `Recent`'s precondition.
- Concurrency: the shared history and interpreter are used without locking. The model treats each call as one atomic step.
