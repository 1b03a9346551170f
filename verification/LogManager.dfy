/** The manager of Log.h: one recorder per UID, created when the first entry for it is added. */
module LogManagement {
  import opened LogRecorder

  // ---------- the manager's state as a value ----------

  type Store<E> = map<string, Record<E>>

  datatype Call<E> = Call(uid: string, op: Op<E>)

  function NewRecord<E>(): Record<E> {
    Record([], [])
  }

  /** The store with an empty record for the UID if it had none. */
  function Created<E>(store: Store<E>, uid: string): Store<E> {
    if uid in store then store else store[uid := NewRecord()]
  }

  /** Only an addition creates a record; a query for an unknown UID changes nothing. */
  function AfterCall<E>(max: nat, store: Store<E>, c: Call<E>): Store<E>
    requires max >= 1
  {
    if c.uid in store || c.op.Add? then
      var created := Created(store, c.uid);
      created[c.uid := After(max, created[c.uid], c.op)]
    else store
  }

  function Response<E>(max: nat, store: Store<E>, c: Call<E>): Reply<E>
    requires max >= 1
  {
    if c.uid in store || c.op.Add? then Answer(max, Created(store, c.uid)[c.uid], c.op) else Logs([])
  }

  // ---------- runs ----------

  /** The store after a sequence of calls on a new manager. */
  function RunAll<E>(max: nat, calls: seq<Call<E>>): Store<E>
    requires max >= 1
    decreases |calls|
  {
    if calls == [] then map[]
    else AfterCall(max, RunAll(max, calls[..|calls| - 1]), calls[|calls| - 1])
  }

  /** The calls made for one UID, in order. */
  function OpsFor<E>(uid: string, calls: seq<Call<E>>): seq<Op<E>>
    decreases |calls|
  {
    if calls == [] then []
    else
      var last := calls[|calls| - 1];
      OpsFor(uid, calls[..|calls| - 1]) + if last.uid == uid then [last.op] else []
  }

  /** The results that the manager returns for one UID during the run. */
  function ResponsesFor<E>(max: nat, uid: string, calls: seq<Call<E>>): seq<Reply<E>>
    requires max >= 1
    decreases |calls|
  {
    if calls == [] then []
    else
      var before, last := calls[..|calls| - 1], calls[|calls| - 1];
      ResponsesFor(max, uid, before) + if last.uid == uid then [Response(max, RunAll(max, before), last)] else []
  }

  /** The record a store holds for a UID, or the new one it would create. */
  function RecordIn<E>(store: Store<E>, uid: string): Record<E> {
    if uid in store then store[uid] else NewRecord()
  }

  /** A call for a UID acts on its record as on a recorder of its own, and on no other record. */
  lemma CallIsLocal<E>(max: nat, store: Store<E>, c: Call<E>, uid: string)
    requires max >= 1
    ensures RecordIn(AfterCall(max, store, c), uid)
         == if c.uid == uid then After(max, RecordIn(store, uid), c.op) else RecordIn(store, uid)
    ensures uid in AfterCall(max, store, c) <==> uid in store || (c.uid == uid && c.op.Add?)
    ensures Response(max, store, c) == Answer(max, RecordIn(store, c.uid), c.op)
  {
    EmptyIsStable<E>(max);
  }

  lemma EmptyIsStable<E>(max: nat)
    requires max >= 1
    ensures After<E>(max, NewRecord(), Current) == NewRecord()
    ensures After<E>(max, NewRecord(), History) == NewRecord()
    ensures Answer<E>(max, NewRecord(), History) == Logs([])
  {
  }

  ghost predicate HasAddition<E>(ops: seq<Op<E>>) {
    exists i :: 0 <= i < |ops| && ops[i].Add?
  }

  /** For every interleaving and every UID the store holds what a recorder of its own would
      hold after that UID's calls, and it holds a record only if one of them was an addition. */
  lemma {:induction false} StoreIsIndependent<E>(max: nat, calls: seq<Call<E>>, uid: string)
    requires max >= 1
    ensures RecordIn(RunAll(max, calls), uid) == Run(max, OpsFor(uid, calls))
    ensures uid in RunAll(max, calls) <==> HasAddition(OpsFor(uid, calls))
    decreases |calls|
  {
    if calls == [] {
    } else {
      var before, last := calls[..|calls| - 1], calls[|calls| - 1];
      StoreIsIndependent(max, before, uid);
      CallIsLocal(max, RunAll(max, before), last, uid);
      if last.uid == uid {
        RunOneMore(max, OpsFor(uid, before), last.op);
        AdditionInConcat(OpsFor(uid, before), last.op);
      } else {
        assert OpsFor(uid, calls) == OpsFor(uid, before);
      }
    }
  }

  lemma AdditionInConcat<E>(ops: seq<Op<E>>, op: Op<E>)
    ensures HasAddition(ops + [op]) <==> HasAddition(ops) || op.Add?
  {
    var more := ops + [op];
    assert more[|ops|] == op && forall i | 0 <= i < |ops| :: more[i] == ops[i];
    if HasAddition(ops) {
      var i :| 0 <= i < |ops| && ops[i].Add?;
      assert more[i].Add?;
    }
  }

  /** All results returned for a UID equal those of a recorder of its own: lazy creation and
      the other UIDs cannot be observed. */
  lemma {:induction false} ResponsesAreIndependent<E>(max: nat, calls: seq<Call<E>>, uid: string)
    requires max >= 1
    ensures ResponsesFor(max, uid, calls) == Answers(max, OpsFor(uid, calls))
    decreases |calls|
  {
    if calls == [] {
    } else {
      var before, last := calls[..|calls| - 1], calls[|calls| - 1];
      ResponsesAreIndependent(max, before, uid);
      if last.uid == uid {
        StoreIsIndependent(max, before, uid);
        CallIsLocal(max, RunAll(max, before), last, uid);
        RunOneMore(max, OpsFor(uid, before), last.op);
      } else {
        assert OpsFor(uid, calls) == OpsFor(uid, before);
      }
    }
  }

  lemma RunAllOneMore<E>(max: nat, calls: seq<Call<E>>, c: Call<E>)
    requires max >= 1
    ensures RunAll(max, calls + [c]) == AfterCall(max, RunAll(max, calls), c)
  {
    assert (calls + [c])[..|calls|] == calls;
  }

  /** What `GetAllLogs` returns after any run, from that UID's calls alone. */
  lemma HistoryAfterRun<E>(max: nat, calls: seq<Call<E>>, uid: string)
    requires max >= 1
    ensures Response(max, RunAll(max, calls), Call(uid, History)).entries == LastN(Added(OpsFor(uid, calls)), max - 1)
  {
    StoreIsIndependent(max, calls, uid);
    CallIsLocal(max, RunAll(max, calls), Call(uid, History), uid);
    HistoryReturnsLastAdded(max, OpsFor(uid, calls));
  }

  /** With the limit of Log.h `GetAllLogs` returns all additions for the UID as long as they are
      at most 4999, and then exactly the last 4999. */
  lemma DefaultHistoryAfterRun<E>(calls: seq<Call<E>>, uid: string)
    ensures var added := Added(OpsFor(uid, calls));
            Response(5000, RunAll(5000, calls), Call(uid, History)).entries
            == if |added| <= 4999 then added else added[|added| - 4999..]
  {
    HistoryAfterRun(5000, calls, uid);
  }

  /** What `GetNewLogs` returns after any run. */
  lemma CurrentAfterRun<E>(max: nat, calls: seq<Call<E>>, uid: string)
    requires max >= 1
    ensures Response(max, RunAll(max, calls), Call(uid, Current)).entries == Undrained(OpsFor(uid, calls))
  {
    StoreIsIndependent(max, calls, uid);
    CallIsLocal(max, RunAll(max, calls), Call(uid, Current), uid);
    CurrentReturnsUndrained(max, OpsFor(uid, calls));
  }

  /** What `AddLog` returns after any run. */
  lemma AdditionAfterRun<E>(max: nat, calls: seq<Call<E>>, uid: string, entry: E)
    requires max >= 1
    ensures Response(max, RunAll(max, calls), Call(uid, Add(entry))).n == SinceDrain(OpsFor(uid, calls)) + 1
  {
    StoreIsIndependent(max, calls, uid);
    CallIsLocal(max, RunAll(max, calls), Call(uid, Add(entry)), uid);
    AdditionCounts(max, OpsFor(uid, calls), entry);
  }

  // ---------- the object ----------

  class LogRecordManager<E> {
    const max: nat
    var records: map<string, LogRecord<E>>
    ghost var trace: seq<Call<E>>  // all calls so far

    /** A manager whose records have the limit of Log.h. */
    constructor ()
      ensures Valid() && max == 5000 && trace == [] && Model() == map[]
    {
      max := DEFAULT_MAX_LOG_COUNT;
      records := map[];
      trace := [];
    }

    constructor WithLimit(max: nat)
      requires max >= 1
      ensures Valid() && this.max == max && trace == [] && Model() == map[]
    {
      this.max := max;
      records := map[];
      trace := [];
    }

    /** Different UIDs never share a record. */
    ghost predicate Separate()
      reads this`records, records.Values
    {
      && max >= 1
      && (forall uid | uid in records :: records[uid].maxLogCount == max && records[uid].Valid())
      && (forall u, v | u in records && v in records && u != v :: records[u] != records[v])
    }

    /** The records are where all calls lead to. */
    ghost predicate Valid()
      reads this, records.Values
    {
      Separate() && Model() == RunAll(max, trace)
    }

    ghost function Model(): Store<E>
      reads this`records, records.Values
    {
      map uid | uid in records :: records[uid].State()
    }

    /** The one object that a call for this UID may change. */
    ghost function RecordFor(uid: string): set<LogRecord<E>>
      reads this`records
    {
      if uid in records then {records[uid]} else {}
    }

    /** Returns the entries added for this UID since its last drain. */
    method GetNewLogs(uid: string) returns (result: seq<E>)
      requires Valid()
      modifies this`trace, RecordFor(uid)
      ensures Valid() && trace == old(trace) + [Call(uid, Current)]
      ensures Model() == AfterCall(max, old(Model()), Call(uid, Current))
      ensures Logs(result) == Response(max, old(Model()), Call(uid, Current))
      ensures result == Undrained(OpsFor(uid, old(trace)))
    {
      CurrentAfterRun(max, trace, uid);
      result := FindNewLogs(uid);
      Note(Call(uid, Current));
    }

    /** Returns the last `max - 1` of all entries ever added for this UID. */
    method GetAllLogs(uid: string) returns (result: seq<E>)
      requires Valid()
      modifies this`trace, RecordFor(uid)
      ensures Valid() && trace == old(trace) + [Call(uid, History)]
      ensures Model() == AfterCall(max, old(Model()), Call(uid, History))
      ensures Logs(result) == Response(max, old(Model()), Call(uid, History))
      ensures result == LastN(Added(OpsFor(uid, old(trace))), max - 1)
      ensures max == 5000 && |Added(OpsFor(uid, old(trace)))| <= 4999 ==> result == Added(OpsFor(uid, old(trace)))
      ensures max == 5000 && |Added(OpsFor(uid, old(trace)))| > 4999 ==>
                result == Added(OpsFor(uid, old(trace)))[|Added(OpsFor(uid, old(trace)))| - 4999..]
    {
      HistoryAfterRun(max, trace, uid);
      result := FindAllLogs(uid);
      Note(Call(uid, History));
    }

    /** Returns the number of additions for this UID since its last drain. */
    method AddLog(uid: string, entry: E) returns (count: nat)
      requires Valid()
      modifies this, RecordFor(uid)
      ensures Valid() && trace == old(trace) + [Call(uid, Add(entry))]
      ensures uid in records && (records[uid] in old(RecordFor(uid)) || fresh(records[uid]))
      ensures Model() == AfterCall(max, old(Model()), Call(uid, Add(entry)))
      ensures Count(count) == Response(max, old(Model()), Call(uid, Add(entry)))
      ensures count == SinceDrain(OpsFor(uid, old(trace))) + 1
    {
      AdditionAfterRun(max, trace, uid, entry);
      count := CreateAndAppend(uid, entry);
      Note(Call(uid, Add(entry)));
    }

    /** Keeps the trace in step with a call that has been carried out. */
    ghost method Note(c: Call<E>)
      requires Separate() && Model() == AfterCall(max, RunAll(max, trace), c)
      modifies this`trace
      ensures Valid() && trace == old(trace) + [c]
    {
      RunAllOneMore(max, trace, c);
      trace := trace + [c];
    }

    /** The lookup and query inside `GetNewLogs`. */
    method FindNewLogs(uid: string) returns (result: seq<E>)
      requires Separate()
      modifies RecordFor(uid)
      ensures Separate()
      ensures Model() == AfterCall(max, old(Model()), Call(uid, Current))
      ensures Logs(result) == Response(max, old(Model()), Call(uid, Current))
    {
      if uid !in records {
        result := [];
      } else {
        result := records[uid].GetCurrentLogs();
        OnlyOneChanged(uid);
      }
    }

    /** The lookup and query inside `GetAllLogs`. */
    method FindAllLogs(uid: string) returns (result: seq<E>)
      requires Separate()
      modifies RecordFor(uid)
      ensures Separate()
      ensures Model() == AfterCall(max, old(Model()), Call(uid, History))
      ensures Logs(result) == Response(max, old(Model()), Call(uid, History))
    {
      if uid !in records {
        result := [];
      } else {
        result := records[uid].GetHistoryLogs();
        OnlyOneChanged(uid);
      }
    }

    /** The lookup, creation and addition inside `AddLog`. */
    method CreateAndAppend(uid: string, entry: E) returns (count: nat)
      requires Separate()
      modifies this`records, RecordFor(uid)
      ensures Separate()
      ensures uid in records && (records[uid] in old(RecordFor(uid)) || fresh(records[uid]))
      ensures Model() == AfterCall(max, old(Model()), Call(uid, Add(entry)))
      ensures Count(count) == Response(max, old(Model()), Call(uid, Add(entry)))
    {
      Create(uid);
      count := Append(uid, entry);
    }

    /** The lazy creation inside `AddLog`. */
    method Create(uid: string)
      requires Separate()
      modifies this`records
      ensures Separate()
      ensures uid in records && (records[uid] in old(RecordFor(uid)) || fresh(records[uid]))
      ensures Model() == Created(old(Model()), uid)
    {
      if uid !in records {
        var record := new LogRecord.WithLimit(max);
        records := records[uid := record];
        assert Separate();
      }
    }

    /** The addition to a record that exists. */
    method Append(uid: string, entry: E) returns (count: nat)
      requires Separate() && uid in records
      modifies RecordFor(uid)
      ensures Separate()
      ensures Model() == old(Model())[uid := After(max, old(Model())[uid], Add(entry))]
      ensures Count(count) == Answer(max, old(Model())[uid], Add(entry))
    {
      count := records[uid].AddLog(entry);
      OnlyOneChanged(uid);
    }

    /** A change to one record changes the model at its UID only. */
    twostate lemma OnlyOneChanged(uid: string)
      requires old(Separate()) && records == old(records) && uid in records && records[uid].Valid()
      requires forall r: LogRecord<E> | r in old(records).Values && r != records[uid] :: unchanged(r)
      ensures Separate()
      ensures Model() == old(Model())[uid := records[uid].State()]
    {
      forall u | u in records && u != uid
        ensures records[u].State() == old(records[u].State()) && records[u].Valid()
      {
        assert records[u] in old(records).Values;
      }
    }
  }
}
