/** The bounded calculation history: a `deque` with a maximum length that
    keeps records in insertion order and drops the oldest record first when
    a new one arrives while it is full. */
module HistoryLog {
  import opened Records

  /** Capacity of the service's history and upper bound of the `limit`
      query parameter of the history endpoint. */
  const HISTORY_MAX: nat := 1000

  function Min(a: int, b: int): int
  {
    if a <= b then a else b
  }

  /** Reference meaning of a log bounded by `n`: drop the oldest record, one
      at a time, until at most `n` records remain. */
  function KeepNewest(s: seq<Record>, n: nat): seq<Record>
    decreases |s|
  {
    if |s| <= n then s else KeepNewest(s[1..], n)
  }

  /** Dropping oldest records until `n` remain leaves exactly the newest
      `min(|s|, n)` records, in their original order. */
  lemma {:induction false} KeepNewestIsSuffix(s: seq<Record>, n: nat)
    ensures |KeepNewest(s, n)| == Min(|s|, n)
    ensures KeepNewest(s, n) == s[|s| - Min(|s|, n)..]
  {
    if |s| > n {
      KeepNewestIsSuffix(s[1..], n);
      assert s[1..][|s| - 1 - Min(|s| - 1, n)..] == s[|s| - n..];
    }
  }

  /** Keeping the newest `m` records and then the newest `n <= m` of those
      is the same as keeping the newest `n` directly. */
  lemma KeepNewestTwice(s: seq<Record>, m: nat, n: nat)
    requires n <= m
    ensures KeepNewest(KeepNewest(s, m), n) == KeepNewest(s, n)
  {
    var k := KeepNewest(s, m);
    KeepNewestIsSuffix(s, m);
    KeepNewestIsSuffix(k, n);
    KeepNewestIsSuffix(s, n);
    assert k[|k| - Min(|k|, n)..] == s[|s| - Min(|s|, n)..];
  }

  /** Evicting before further appends does not change which records survive:
      the bounded log only ever depends on the newest records. */
  lemma KeepNewestThenAppend(t: seq<Record>, u: seq<Record>, n: nat)
    ensures KeepNewest(KeepNewest(t, n) + u, n) == KeepNewest(t + u, n)
  {
    var k := KeepNewest(t, n);
    KeepNewestIsSuffix(t, n);
    KeepNewestIsSuffix(k + u, n);
    KeepNewestIsSuffix(t + u, n);
    var a := Min(|t|, n);
    assert k + u == (t + u)[|t| - a..];
    assert Min(|k + u|, n) == Min(|t + u|, n);
    var m := Min(|t + u|, n);
    assert (k + u)[|k + u| - m..] == (t + u)[|t + u| - m..];
  }

  /** One `append` on a deque with maximum length `cap` that holds `log`. */
  function Pushed(log: seq<Record>, r: Record, cap: nat): (p: seq<Record>)
    requires 0 < cap && |log| <= cap
    ensures |p| == Min(|log| + 1, cap)
    ensures p[|p| - 1] == r
  {
    if |log| < cap then log + [r] else log[1..] + [r]
  }

  /** An append agrees with the reference meaning: the new record is kept
      and, when the log was full, only its oldest record is dropped. */
  lemma PushedKeepsNewest(log: seq<Record>, r: Record, cap: nat)
    requires 0 < cap && |log| <= cap
    ensures Pushed(log, r, cap) == KeepNewest(log + [r], cap)
  {
    KeepNewestIsSuffix(log + [r], cap);
    if |log| == cap {
      assert (log + [r])[1..] == log[1..] + [r];
    }
  }

  /** The log after appending every record of `rs`, in order. */
  function PushAll(log: seq<Record>, rs: seq<Record>, cap: nat): (p: seq<Record>)
    requires 0 < cap && |log| <= cap
    ensures |p| == Min(|log| + |rs|, cap)
    decreases |rs|
  {
    if rs == [] then log else PushAll(Pushed(log, rs[0], cap), rs[1..], cap)
  }

  /** However many records are appended, the log holds exactly the newest
      `cap` of everything it has seen, oldest first. */
  lemma {:induction false} PushAllKeepsNewest(log: seq<Record>, rs: seq<Record>, cap: nat)
    requires 0 < cap && |log| <= cap
    ensures PushAll(log, rs, cap) == KeepNewest(log + rs, cap)
    decreases |rs|
  {
    if rs == [] {
      assert log + rs == log;
    } else {
      var next := Pushed(log, rs[0], cap);
      PushAllKeepsNewest(next, rs[1..], cap);
      PushedKeepsNewest(log, rs[0], cap);
      KeepNewestThenAppend(log + [rs[0]], rs[1..], cap);
      assert log + [rs[0]] + rs[1..] == log + rs;
    }
  }

  /** After `cap + k` appends (k > 0) to an empty log, it holds exactly the
      last `cap` appended records, in order. */
  lemma Overflow(rs: seq<Record>, cap: nat)
    requires 0 < cap < |rs|
    ensures PushAll([], rs, cap) == rs[|rs| - cap..]
  {
    PushAllKeepsNewest([], rs, cap);
    KeepNewestIsSuffix(rs, cap);
    assert [] + rs == rs;
  }

  /** The history endpoint's slice `list(history)[-limit:]`: the newest
      `limit` records (all of them when there are fewer), oldest first. */
  function Recent(log: seq<Record>, limit: int): (r: seq<Record>)
    requires 1 <= limit <= HISTORY_MAX
    ensures |r| == Min(limit, |log|)
    ensures r == KeepNewest(log, limit)
  {
    KeepNewestIsSuffix(log, limit);
    var start := if limit <= |log| then |log| - limit else 0;
    log[start..]
  }

  /** After a clear and the appends `rs`, a history query returns the last
      `limit` of the appended records, whatever the capacity `cap >= limit`. */
  lemma RecentAfterAppends(rs: seq<Record>, cap: nat, limit: int)
    requires 1 <= limit <= cap && limit <= HISTORY_MAX
    ensures Recent(PushAll([], rs, cap), limit) == rs[|rs| - Min(limit, |rs|)..]
  {
    PushAllKeepsNewest([], rs, cap);
    assert [] + rs == rs;
    KeepNewestTwice(rs, cap, limit);
    KeepNewestIsSuffix(rs, limit);
  }

  /** The module-level `history = deque(maxlen=HISTORY_MAX)`. */
  class History {
    const capacity: nat
    var log: seq<Record>

    ghost predicate Valid()
      reads this
    {
      0 < capacity && |log| <= capacity
    }

    constructor (capacity: nat)
      requires 0 < capacity
      ensures Valid() && this.capacity == capacity && log == []
    {
      this.capacity := capacity;
      log := [];
    }

    /** `history.append(item)`: a full log drops its oldest record first. */
    method Append(r: Record)
      requires Valid()
      modifies this
      ensures Valid()
      ensures log == Pushed(old(log), r, capacity)
      ensures log == KeepNewest(old(log) + [r], capacity)
      ensures |old(log)| == capacity ==> log == old(log)[1..] + [r]
      ensures |old(log)| < capacity ==> log == old(log) + [r]
    {
      PushedKeepsNewest(log, r, capacity);
      if |log| == capacity {
        log := log[1..];
      }
      log := log + [r];
    }

    /** `history.clear()`: empties the log from any state, so it is
        idempotent. */
    method Clear()
      requires Valid()
      modifies this
      ensures Valid() && log == []
    {
      log := [];
    }
  }
}
