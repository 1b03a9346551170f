/** The log recorder of Log.h: a buffer of pending entries and a bounded history, both kept by
    one object, together with a specification on values and what it guarantees over whole runs. */
module LogRecorder {

  /** The limit in Log.h. The recorder is modelled for any limit of at least one. */
  const DEFAULT_MAX_LOG_COUNT := 5000

  // ---------- the state as a value ----------

  datatype Record<E> = Record(pending: seq<E>, history: seq<E>)

  datatype Op<E> = Add(entry: E) | Current | History

  datatype Reply<E> = Count(n: nat) | Logs(entries: seq<E>)

  /** The last `n` elements, or all when there are fewer. */
  function LastN<E>(s: seq<E>, n: nat): (r: seq<E>)
    ensures |r| == if |s| < n then |s| else n
  {
    if |s| < n then s else s[|s| - n..]
  }

  /** The state after one call. The trimming test is `>=`, so one entry fewer than the limit is kept. */
  function After<E>(max: nat, r: Record<E>, op: Op<E>): Record<E>
    requires max >= 1
  {
    match op
    case Add(entry) => Record(r.pending + [entry], LastN(r.history, max - 1))
    case _ => Record([], LastN(r.history + r.pending, max - 1))
  }

  /** What the call returns. */
  function Answer<E>(max: nat, r: Record<E>, op: Op<E>): Reply<E>
    requires max >= 1
  {
    match op
    case Add(_) => Count(|r.pending| + 1)
    case Current => Logs(r.pending)
    case History => Logs(LastN(r.history + r.pending, max - 1))
  }

  // ---------- runs ----------

  /** The state after a sequence of calls on a new recorder. */
  function Run<E>(max: nat, ops: seq<Op<E>>): Record<E>
    requires max >= 1
    decreases |ops|
  {
    if ops == [] then Record([], [])
    else After(max, Run(max, ops[..|ops| - 1]), ops[|ops| - 1])
  }

  /** The results of a recorder on its own. */
  function Answers<E>(max: nat, ops: seq<Op<E>>): seq<Reply<E>>
    requires max >= 1
    decreases |ops|
  {
    if ops == [] then []
    else
      var before := ops[..|ops| - 1];
      Answers(max, before) + [Answer(max, Run(max, before), ops[|ops| - 1])]
  }

  lemma RunOneMore<E>(max: nat, ops: seq<Op<E>>, op: Op<E>)
    requires max >= 1
    ensures Run(max, ops + [op]) == After(max, Run(max, ops), op)
    ensures Answers(max, ops + [op]) == Answers(max, ops) + [Answer(max, Run(max, ops), op)]
  {
    assert (ops + [op])[..|ops|] == ops;
  }

  /** Everything added during the run, in order. */
  function Added<E>(ops: seq<Op<E>>): seq<E>
    decreases |ops|
  {
    if ops == [] then []
    else
      var last := ops[|ops| - 1];
      Added(ops[..|ops| - 1]) + if last.Add? then [last.entry] else []
  }

  /** How many calls at the end of the run are additions: those since the last drain. */
  function SinceDrain<E>(ops: seq<Op<E>>): nat
    decreases |ops|
  {
    if ops == [] || !ops[|ops| - 1].Add? then 0 else 1 + SinceDrain(ops[..|ops| - 1])
  }

  /** The entries added after the last drain. */
  function Undrained<E>(ops: seq<Op<E>>): seq<E>
    decreases |ops|
  {
    if ops == [] || !ops[|ops| - 1].Add? then []
    else Undrained(ops[..|ops| - 1]) + [ops[|ops| - 1].entry]
  }

  /** The entries added before the last drain. */
  function Drained<E>(ops: seq<Op<E>>): seq<E>
    decreases |ops|
  {
    if ops == [] then []
    else if ops[|ops| - 1].Add? then Drained(ops[..|ops| - 1])
    else Added(ops[..|ops| - 1])
  }

  /** Nothing is lost or duplicated between the two. */
  lemma {:induction false} DrainedThenUndrained<E>(ops: seq<Op<E>>)
    ensures Drained(ops) + Undrained(ops) == Added(ops)
    ensures |Undrained(ops)| == SinceDrain(ops)
    decreases |ops|
  {
    if ops == [] {
    } else {
      DrainedThenUndrained(ops[..|ops| - 1]);
    }
  }

  lemma LastNOfLastN<E>(s: seq<E>, t: seq<E>, n: nat)
    ensures LastN(LastN(s, n) + t, n) == LastN(s + t, n)
  {
    if |s| < n {
    } else {
      var z := LastN(s, n);
      DropTwice(s, t, |s| - n, |t|);
      LastNDrops(z + t, n, |t|);
      LastNDrops(s + t, n, |s| - n + |t|);
    }
  }

  lemma LastNDrops<E>(s: seq<E>, n: nat, k: nat)
    requires n + k == |s|
    ensures LastN(s, n) == s[k..]
  {
  }

  lemma DropTwice<E>(s: seq<E>, t: seq<E>, k: nat, m: nat)
    requires k <= |s| && k + m <= |s| + |t|
    ensures (s[k..] + t)[m..] == (s + t)[k + m..]
  {
    var x, y := (s[k..] + t)[m..], (s + t)[k + m..];
    assert |x| == |y|;
    forall i | 0 <= i < |x| ensures x[i] == y[i] {
    }
  }

  lemma LastNTwice<E>(s: seq<E>, n: nat)
    ensures LastN(LastN(s, n), n) == LastN(s, n)
  {
  }

  /** One call on a record whose history is the end of `drained`. */
  lemma OneCall<E>(max: nat, drained: seq<E>, pending: seq<E>, op: Op<E>)
    requires max >= 1
    ensures After(max, Record(pending, LastN(drained, max - 1)), op)
         == if op.Add? then Record(pending + [op.entry], LastN(drained, max - 1))
            else Record([], LastN(drained + pending, max - 1))
    ensures op.History? ==>
              Answer(max, Record(pending, LastN(drained, max - 1)), op) == Logs(LastN(drained + pending, max - 1))
  {
    LastNOfLastN(drained, pending, max - 1);
    LastNTwice(drained, max - 1);
  }

  /** In every reachable state the pending buffer is what was added since the last drain, and
      the history is the last `max - 1` of everything drained, however it was batched. */
  lemma {:induction false} RunState<E>(max: nat, ops: seq<Op<E>>)
    requires max >= 1
    ensures Run(max, ops) == Record(Undrained(ops), LastN(Drained(ops), max - 1))
    decreases |ops|
  {
    if ops == [] {
    } else {
      var before := ops[..|ops| - 1];
      RunState(max, before);
      OneCall(max, Drained(before), Undrained(before), ops[|ops| - 1]);
      DrainedThenUndrained(before);
    }
  }

  /** After any run an addition returns the number of additions since the last drain. */
  lemma {:induction false} AdditionCounts<E>(max: nat, before: seq<Op<E>>, entry: E)
    requires max >= 1
    ensures Answer(max, Run(max, before), Add(entry)) == Count(SinceDrain(before) + 1)
  {
    RunState(max, before);
    DrainedThenUndrained(before);
  }

  /** After any run `Current` returns the entries added since the last drain. */
  lemma {:induction false} CurrentReturnsUndrained<E>(max: nat, before: seq<Op<E>>)
    requires max >= 1
    ensures Answer(max, Run(max, before), Current) == Logs(Undrained(before))
  {
    RunState(max, before);
  }

  /** After any run `History` returns the last `max - 1` of everything ever added. */
  lemma {:induction false} HistoryReturnsLastAdded<E>(max: nat, before: seq<Op<E>>)
    requires max >= 1
    ensures Answer(max, Run(max, before), History).entries == LastN(Added(before), max - 1)
  {
    RunState(max, before);
    OneCall(max, Drained(before), Undrained(before), History);
    DrainedThenUndrained(before);
  }

  /** With the limit of Log.h the history call returns everything ever added as long as that
      is at most 4999 entries, and then exactly the last 4999; no more are ever kept. */
  lemma {:induction false} DefaultHistory<E>(before: seq<Op<E>>)
    ensures var added, result := Added(before), Answer(5000, Run(5000, before), History).entries;
            result == if |added| <= 4999 then added else added[|added| - 4999..]
    ensures |Run(5000, before).history| <= 4999
  {
    HistoryReturnsLastAdded(5000, before);
    RunState(5000, before);
  }

  /** The history never reaches the limit: it holds everything drained as long as that fits
      below the limit, then one entry less than the limit. So the two trims inside an addition remove nothing. */
  lemma {:induction false} HistoryStaysBelowLimit<E>(max: nat, ops: seq<Op<E>>, entry: E)
    requires max >= 1
    ensures |Run(max, ops).history| == if |Drained(ops)| < max then |Drained(ops)| else max - 1
    ensures After(max, Run(max, ops), Add(entry)).history == Run(max, ops).history
  {
    RunState(max, ops);
  }

  /** The batch a call moves from the pending buffer to the history. */
  function Batch<E>(r: Record<E>, op: Op<E>): seq<E> {
    if op.Add? then [] else r.pending
  }

  /** All batches moved during a run, in order. */
  function Batches<E>(max: nat, ops: seq<Op<E>>): seq<E>
    requires max >= 1
    decreases |ops|
  {
    if ops == [] then []
    else
      var before := ops[..|ops| - 1];
      Batches(max, before) + Batch(Run(max, before), ops[|ops| - 1])
  }

  /** Everything returned by the `Current` calls of a run, in order. */
  function Delivered<E>(max: nat, ops: seq<Op<E>>): seq<E>
    requires max >= 1
    decreases |ops|
  {
    if ops == [] then []
    else
      var before, last := ops[..|ops| - 1], ops[|ops| - 1];
      Delivered(max, before) + if last.Current? then Answer(max, Run(max, before), last).entries else []
  }

  /** Conservation: the batches, then what is still pending, are exactly what was added. */
  lemma {:induction false} BatchesConserve<E>(max: nat, ops: seq<Op<E>>)
    requires max >= 1
    ensures Batches(max, ops) + Run(max, ops).pending == Added(ops)
    decreases |ops|
  {
    if ops == [] {
    } else {
      var before, last := ops[..|ops| - 1], ops[|ops| - 1];
      BatchesConserve(max, before);
      BatchMoves(max, Batches(max, before), Run(max, before), last);
    }
  }

  /** One call keeps `moved + pending`, up to the entry it adds. */
  lemma BatchMoves<E>(max: nat, moved: seq<E>, r: Record<E>, op: Op<E>)
    requires max >= 1
    ensures (moved + Batch(r, op)) + After(max, r, op).pending
         == (moved + r.pending) + if op.Add? then [op.entry] else []
  {
  }

  /** When only `Current` drains, its results deliver each entry once and in order. */
  lemma {:induction false} PollingDeliversOnce<E>(max: nat, ops: seq<Op<E>>)
    requires max >= 1 && forall op | op in ops :: !op.History?
    ensures Delivered(max, ops) + Run(max, ops).pending == Added(ops)
  {
    DeliveredIsBatches(max, ops);
    BatchesConserve(max, ops);
  }

  lemma {:induction false} DeliveredIsBatches<E>(max: nat, ops: seq<Op<E>>)
    requires max >= 1 && forall op | op in ops :: !op.History?
    ensures Delivered(max, ops) == Batches(max, ops)
    decreases |ops|
  {
    if ops == [] {
    } else {
      var before, last := ops[..|ops| - 1], ops[|ops| - 1];
      DeliveredIsBatches(max, before);
      assert !last.History?;
    }
  }

  // ---------- the object ----------

  class LogRecord<E> {
    const maxLogCount: nat
    var logs: seq<E>
    var historyLogs: seq<E>
    ghost var trace: seq<Op<E>>  // all calls so far

    /** A recorder with the limit of Log.h. */
    constructor ()
      ensures Valid() && maxLogCount == 5000 && trace == [] && State() == Record([], [])
    {
      maxLogCount := DEFAULT_MAX_LOG_COUNT;
      logs := [];
      historyLogs := [];
      trace := [];
    }

    constructor WithLimit(max: nat)
      requires max >= 1
      ensures Valid() && maxLogCount == max && trace == [] && State() == Record([], [])
    {
      maxLogCount := max;
      logs := [];
      historyLogs := [];
      trace := [];
    }

    ghost function State(): Record<E>
      reads this`logs, this`historyLogs
    {
      Record(logs, historyLogs)
    }

    /** The object is where its calls lead to. */
    ghost predicate Valid()
      reads this
    {
      maxLogCount >= 1 && State() == Run(maxLogCount, trace)
    }

    /** Returns the number of additions since the last drain. */
    method AddLog(entry: E) returns (count: nat)
      requires Valid()
      modifies this
      ensures Valid() && trace == old(trace) + [Add(entry)]
      ensures State() == After(maxLogCount, old(State()), Add(entry))
      ensures Count(count) == Answer(maxLogCount, old(State()), Add(entry))
      ensures count == SinceDrain(old(trace)) + 1
    {
      assert |logs| == SinceDrain(trace) by { AdditionCounts(maxLogCount, trace, entry); }
      TrimHistory();
      logs := logs + [entry];
      TrimOnce();
      count := |logs|;
      Note(Add(entry));
    }

    /** Returns the entries added since the last drain. */
    method GetCurrentLogs() returns (result: seq<E>)
      requires Valid()
      modifies this
      ensures Valid() && trace == old(trace) + [Current]
      ensures State() == After(maxLogCount, old(State()), Current)
      ensures Logs(result) == Answer(maxLogCount, old(State()), Current)
      ensures result == Undrained(old(trace))
    {
      CurrentReturnsUndrained(maxLogCount, trace);
      result := logs;
      historyLogs := historyLogs + logs;
      logs := [];
      TrimHistory();
      Note(Current);
    }

    /** Returns the last `maxLogCount - 1` of all entries ever added. */
    method GetHistoryLogs() returns (result: seq<E>)
      requires Valid()
      modifies this
      ensures Valid() && trace == old(trace) + [History]
      ensures State() == After(maxLogCount, old(State()), History)
      ensures Logs(result) == Answer(maxLogCount, old(State()), History)
      ensures result == LastN(Added(old(trace)), maxLogCount - 1)
      ensures maxLogCount == 5000 && |Added(old(trace))| <= 4999 ==> result == Added(old(trace))
      ensures maxLogCount == 5000 && |Added(old(trace))| > 4999 ==>
                result == Added(old(trace))[|Added(old(trace))| - 4999..]
    {
      HistoryReturnsLastAdded(maxLogCount, trace);
      historyLogs := historyLogs + logs;
      logs := [];
      TrimHistory();
      result := historyLogs;
      Note(History);
    }

    /** Keeps the trace in step with a call that has been carried out. */
    ghost method Note(op: Op<E>)
      requires maxLogCount >= 1 && State() == After(maxLogCount, Run(maxLogCount, trace), op)
      modifies this`trace
      ensures Valid() && trace == old(trace) + [op]
    {
      RunOneMore(maxLogCount, trace, op);
      trace := trace + [op];
    }

    /** The trimming loop that all three methods contain. */
    method TrimHistory()
      requires maxLogCount >= 1
      modifies this`historyLogs
      ensures historyLogs == LastN(old(historyLogs), maxLogCount - 1)
    {
      ghost var removed := 0;
      while |historyLogs| >= maxLogCount
        invariant removed <= |old(historyLogs)| && historyLogs == old(historyLogs)[removed..]
        invariant removed == 0 || |historyLogs| >= maxLogCount - 1
        decreases |historyLogs|
      {
        historyLogs := historyLogs[1..];
        removed := removed + 1;
      }
    }

    /** The second trim of an addition: it removes nothing from a history below the limit. */
    method TrimOnce()
      requires maxLogCount >= 1
      modifies this`historyLogs
      ensures historyLogs ==
              if |old(historyLogs)| >= maxLogCount then old(historyLogs)[1..] else old(historyLogs)
    {
      if |historyLogs| >= maxLogCount {
        historyLogs := historyLogs[1..];
      }
    }
  }
}
