/** The calculate endpoint: expand percent literals, evaluate, turn the
    outcome into a response and record it in the history. The percent
    expander and the sandboxed evaluator are outside this model; what they
    produce for one request enters as an `Outcome`. */
module Calculation {
  import opened Records
  import opened HistoryLog

  /** Separator between the evaluator's error messages. */
  const SEPARATOR: string := "; "

  /** `sep.join(parts)`. */
  function Join(parts: seq<string>, sep: string): string
    decreases |parts|
  {
    if |parts| == 0 then ""
    else if |parts| == 1 then parts[0]
    else parts[0] + sep + Join(parts[1..], sep)
  }

  /** Sum of the lengths of `parts`. */
  function TotalLength(parts: seq<string>): nat
    decreases |parts|
  {
    if parts == [] then 0 else |parts[0]| + TotalLength(parts[1..])
  }

  /** Where `parts[i]` starts in `Join(parts, sep)`: every earlier part and
      the separator after it come first. */
  function Offset(parts: seq<string>, sep: string, i: nat): nat
    requires i <= |parts|
    decreases i
  {
    if i == 0 then 0 else |parts[0]| + |sep| + Offset(parts[1..], sep, i - 1)
  }

  /** A joined message holds every part plus one separator between each two
      neighbours, and nothing else. */
  lemma {:induction false} JoinLength(parts: seq<string>, sep: string)
    requires parts != []
    ensures |Join(parts, sep)| == TotalLength(parts) + |sep| * (|parts| - 1)
    decreases |parts|
  {
    if |parts| > 1 {
      JoinLength(parts[1..], sep);
    }
  }

  /** A slice of `a + b` that lies wholly within `b`. */
  lemma SliceOfSuffix(a: string, b: string, x: nat, y: nat)
    requires x <= y <= |b|
    ensures (a + b)[|a| + x..|a| + y] == b[x..y]
  {
    assert forall k | 0 <= k < y - x :: (a + b)[|a| + x..|a| + y][k] == b[x..y][k];
  }

  /** Consecutive parts are one separator apart. */
  lemma {:induction false} OffsetStep(parts: seq<string>, sep: string, i: nat)
    requires i + 1 < |parts|
    ensures Offset(parts, sep, i + 1) == Offset(parts, sep, i) + |parts[i]| + |sep|
    decreases i
  {
    if i > 0 {
      OffsetStep(parts[1..], sep, i - 1);
    }
  }

  /** The parts appear in the joined message in list order: part `i` sits
      at `Offset(parts, sep, i)`. */
  lemma {:induction false} JoinAt(parts: seq<string>, sep: string, i: nat)
    requires i < |parts|
    ensures Offset(parts, sep, i) + |parts[i]| <= |Join(parts, sep)|
    ensures Join(parts, sep)[Offset(parts, sep, i)..Offset(parts, sep, i) + |parts[i]|] == parts[i]
    decreases i
  {
    if |parts| > 1 {
      var rest := Join(parts[1..], sep);
      assert Join(parts, sep) == parts[0] + sep + rest;
      if i > 0 {
        JoinAt(parts[1..], sep, i - 1);
        var o := Offset(parts[1..], sep, i - 1);
        SliceOfSuffix(parts[0] + sep, rest, o, o + |parts[i]|);
      }
    }
  }

  /** A slice of `a + b` that lies wholly within `a`. */
  lemma SliceOfPrefix(a: string, b: string, x: nat, y: nat)
    requires x <= y <= |a|
    ensures (a + b)[x..y] == a[x..y]
  {
    assert forall k | 0 <= k < y - x :: (a + b)[x..y][k] == a[x..y][k];
  }

  /** Between part `i` and part `i + 1` the joined message holds exactly
      one separator. */
  lemma {:induction false} JoinSeparatorAt(parts: seq<string>, sep: string, i: nat)
    requires i + 1 < |parts|
    ensures Offset(parts, sep, i) + |parts[i]| + |sep| <= |Join(parts, sep)|
    ensures Join(parts, sep)[Offset(parts, sep, i) + |parts[i]|..Offset(parts, sep, i) + |parts[i]| + |sep|] == sep
    decreases i
  {
    OffsetStep(parts, sep, i);
    var head := parts[0] + sep;
    var rest := Join(parts[1..], sep);
    assert Join(parts, sep) == head + rest;
    if i == 0 {
      SliceOfPrefix(head, rest, |parts[0]|, |head|);
      assert head[|parts[0]|..] == sep;
    } else {
      JoinSeparatorAt(parts[1..], sep, i - 1);
      assert parts[1..][i - 1] == parts[i];
      var o := Offset(parts[1..], sep, i - 1) + |parts[i]|;
      assert Offset(parts, sep, i) + |parts[i]| == |head| + o;
      assert Offset(parts, sep, i + 1) == |head| + Offset(parts[1..], sep, i);
      SliceOfSuffix(head, rest, o, o + |sep|);
    }
  }

  /** With a non-empty separator, the joined message is empty exactly when
      there is nothing to join or a single empty message. */
  lemma JoinEmptyIff(parts: seq<string>, sep: string)
    requires sep != ""
    ensures Join(parts, sep) == "" <==> parts == [] || (|parts| == 1 && parts[0] == "")
  {
    if |parts| > 1 {
      JoinLength(parts, sep);
    }
  }

  /** What the percent expander and the evaluator did with one expression:
      either the evaluator ran, returning `value` and leaving the error
      messages `reported` (possibly none) in its error list, or one of them
      raised an exception whose text is `message`. */
  datatype Outcome =
    | Evaluated(value: Value, reported: seq<string>)
    | Raised(message: string)

  /** The shared `aeval` interpreter, reduced to its error list; each entry
      is the text of one error it reported. */
  class Evaluator {
    var errors: seq<string>

    constructor ()
      ensures errors == []
    {
      errors := [];
    }
  }

  /** `calculate(expr)`, with the module-level history and interpreter passed
      in and the clock reading given as `timestamp`. Returns the response and,
      as a ghost, the record it appended. */
  method Calculate(history: History, evaluator: Evaluator, expr: string, outcome: Outcome, timestamp: string)
    returns (resp: Response, ghost rec: Record)
    requires history.Valid()
    modifies history, evaluator
    ensures history.Valid()
    // every call appends exactly one record, evicting the oldest when full
    ensures history.log == Pushed(old(history.log), rec, history.capacity)
    ensures history.log == KeepNewest(old(history.log) + [rec], history.capacity)
    // the original expression, never the expanded one, is echoed and stored
    ensures resp.expr == expr && rec.expression == expr && rec.timestamp == timestamp
    // the record copies the response's fields; a missing result is stored as null
    ensures rec.ok == resp.ok && rec.error == resp.error
    ensures rec.result == (if resp.result.Some? then resp.result.value else Null)
    // success exactly when the evaluator ran and reported no error
    ensures resp.ok <==> outcome.Evaluated? && outcome.reported == []
    ensures resp.ok ==> resp.result == Some(outcome.value) && resp.error == ""
    ensures outcome.Evaluated? && outcome.reported != [] ==>
      resp.result == Some(Text("")) && resp.error == Join(outcome.reported, SEPARATOR)
    ensures outcome.Evaluated? && outcome.reported != [] && (forall m <- outcome.reported :: m != "") ==>
      resp.error != ""
    ensures outcome.Raised? ==> resp.result == None && resp.error == outcome.message
    // once the evaluator has run, its error list is left empty
    ensures evaluator.errors == if outcome.Raised? then old(evaluator.errors) else []
  {
    var item: Record;
    match outcome {
    case Raised(message) => {
      resp := Response(false, expr, None, message);
      item := Record(timestamp, expr, Null, false, message);
    }
    case Evaluated(value, reported) => {
      // running the interpreter leaves its reported errors in its error list
      evaluator.errors := reported;
      if |evaluator.errors| > 0 {
        var msg := Join(evaluator.errors, SEPARATOR);
        JoinEmptyIff(evaluator.errors, SEPARATOR);
        assert reported[0] in reported;
        evaluator.errors := [];
        resp := Response(false, expr, Some(Text("")), msg);
      } else {
        resp := Response(true, expr, Some(value), "");
      }
      item := Record(timestamp, expr, resp.result.value, resp.ok, resp.error);
    }
    }
    history.Append(item);
    rec := item;
  }

  /** A client of the operations above: clear the history, calculate
      "1+1", "2*2" and "3/3", then ask for the newest two records; a clear,
      a calculation of "12*2" and another clear then leave nothing for a
      later query. */
  method HistoryAfterClear(history: History, evaluator: Evaluator, timestamp: string)
    returns (newest: seq<Record>, afterClear: seq<Record>)
    requires history.Valid() && history.capacity == HISTORY_MAX
    modifies history, evaluator
    ensures |newest| == 2 && newest[0].expression == "2*2" && newest[1].expression == "3/3"
    ensures afterClear == [] && history.log == []
  {
    history.Clear();
    var resp, rec1 := Calculate(history, evaluator, "1+1", Evaluated(Num(2.0), []), timestamp);
    ghost var rec2, rec3;
    resp, rec2 := Calculate(history, evaluator, "2*2", Evaluated(Num(4.0), []), timestamp);
    resp, rec3 := Calculate(history, evaluator, "3/3", Evaluated(Num(1.0), []), timestamp);
    assert history.log == [rec1, rec2, rec3];
    newest := Recent(history.log, 2);
    history.Clear();
    resp, rec1 := Calculate(history, evaluator, "12*2", Evaluated(Num(24.0), []), timestamp);
    history.Clear();
    afterClear := Recent(history.log, 10);
  }
}
