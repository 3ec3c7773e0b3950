/** The memoisation table of a dependency run (`depRun`) and its run-once
    wrappers (`depOnce`). Locks and `sync.Once` are replaced by sequential
    state transitions over an immutable table. */
module Store {

  import opened Errors

  /** A dependency: its identifier and the outcome its body produces when it is
      executed (`dep`, or anything implementing `Dep`). */
  datatype Dep = Dep(id: string, body: Outcome)

  /** Whether a wrapper's body has executed, and the outcome it cached. */
  datatype Status = Pending | Done(err: Outcome)

  /** A run-once wrapper: the dependency it was created for and its status. */
  datatype Once = Once(dep: Dep, status: Status)

  /** A dependency run: the table from identifier to wrapper, and the
      identifiers whose bodies this table has executed, in execution order. */
  datatype DepRun = DepRun(ran: map<string, Once>, runs: seq<string>)

  /** A table and the result of one operation on it. */
  datatype Step = Step(run: DepRun, err: Outcome)

  ghost predicate Distinct<T>(s: seq<T>)
  {
    forall i, j :: 0 <= i < j < |s| ==> s[i] != s[j]
  }

  /** The invariant of every table the engine can reach: each wrapper sits under
      its dependency's identifier, a cached outcome is the one its body produced,
      and the bodies executed are exactly the finished wrappers, each once. */
  ghost predicate Valid(r: DepRun)
  {
    && (forall id :: id in r.ran ==> r.ran[id].dep.id == id)
    && (forall id :: id in r.ran && r.ran[id].status.Done? ==> r.ran[id].status.err == r.ran[id].dep.body)
    && Distinct(r.runs)
    && (forall id :: id in r.runs <==> id in r.ran && r.ran[id].status.Done?)
  }

  /** `NewDependencyRun`: a table that knows no identifier. */
  function NewDependencyRun(): (r: DepRun)
    ensures Valid(r)
    ensures forall id :: id !in r.ran && id !in r.runs
  {
    DepRun(map[], [])
  }

  /** `Reset`: replaces the table with an empty one, forgetting every wrapper. */
  function Reset(r: DepRun): (r': DepRun)
    ensures Valid(r')
    ensures forall id :: id !in r'.ran && id !in r'.runs
  {
    DepRun(map[], [])
  }

  /** A table and the wrapper `get` handed back. */
  datatype Resolution = Resolution(run: DepRun, once: Once)

  /** `get`: the wrapper registered for `d`'s identifier, inserting a fresh one
      wrapping `d` only when the identifier is unknown. */
  function Get(r: DepRun, d: Dep): (res: Resolution)
    ensures res.run.ran.Keys == r.ran.Keys + {d.id}
    ensures res.run.runs == r.runs
    ensures res.once == res.run.ran[d.id]
    ensures forall id :: id in r.ran ==> res.run.ran[id] == r.ran[id]
    ensures d.id in r.ran ==> res.run == r
    ensures d.id !in r.ran ==> res.once == Once(d, Pending)
    ensures Valid(r) ==> Valid(res.run)
  {
    if d.id in r.ran then Resolution(r, r.ran[d.id])
    else
      var once := Once(d, Pending);
      Resolution(r.(ran := r.ran[d.id := once]), once)
  }

  /** The wrapper after a call to its `Run`, the error that call returned, and
      whether the call executed the body. */
  datatype Ran = Ran(once: Once, err: Outcome, executed: bool)

  /** `depOnce.Run`: executes the body on the first call and caches its outcome;
      every later call returns the cached outcome without executing. */
  function Run(o: Once): (res: Ran)
    ensures res.once.dep == o.dep
    ensures res.once.status == Done(res.err)
    ensures res.executed <==> o.status.Pending?
    ensures o.status.Done? ==> res.err == o.status.err && res.once == o
    ensures o.status.Pending? ==> res.err == o.dep.body
  {
    match o.status
    case Pending => Ran(Once(o.dep, Done(o.dep.body)), o.dep.body, true)
    case Done(err) => Ran(o, err, false)
  }

  /** The results of `n` successive calls of `Run` on one wrapper. */
  function RunRepeatedly(o: Once, n: nat): (calls: seq<Ran>)
    ensures |calls| == n
    decreases n
  {
    if n == 0 then []
    else
      var first := Run(o);
      [first] + RunRepeatedly(first.once, n - 1)
  }

  /** However often a wrapper is run, only the first call may execute the body,
      and every call returns the first call's outcome, failures included. */
  lemma {:induction false} RunAtMostOnce(o: Once, n: nat)
    requires n > 0
    ensures RunRepeatedly(o, n)[0].executed <==> o.status.Pending?
    ensures forall i :: 0 < i < n ==> !RunRepeatedly(o, n)[i].executed
    ensures forall i :: 0 <= i < n ==> RunRepeatedly(o, n)[i].err == RunRepeatedly(o, n)[0].err
    decreases n
  {
    var first := Run(o);
    var calls := RunRepeatedly(o, n);
    assert calls == [first] + RunRepeatedly(first.once, n - 1);
    if n > 1 {
      RunAtMostOnce(first.once, n - 1);
      var rest := RunRepeatedly(first.once, n - 1);
      assert rest[0].err == first.err;
      forall i | 0 < i < n
        ensures !calls[i].executed && calls[i].err == first.err
      {
        assert calls[i] == rest[i - 1];
      }
    }
  }

  /** Runs the wrapper registered under `id` and records it in the table,
      logging the identifier when the body executed. */
  function RunEntry(r: DepRun, id: string): (res: Step)
    requires id in r.ran
    ensures res.run.ran == r.ran[id := Once(r.ran[id].dep, Done(res.err))]
    ensures r.ran[id].status.Done? ==> res.run == r && res.err == r.ran[id].status.err
    ensures r.ran[id].status.Pending? ==> res.run.runs == r.runs + [id]
    ensures Valid(r) ==> res.err == r.ran[id].dep.body && Valid(res.run)
  {
    var call := Run(r.ran[id]);
    var runs := if call.executed then r.runs + [id] else r.runs;
    Step(DepRun(r.ran[id := call.once], runs), call.err)
  }

  /** One request for `d` as `Serial` and each `Parallel` goroutine make it:
      `get`, then `Run` on the wrapper returned. The outcome is that of the body
      registered first under `d`'s identifier, which need not be `d`'s own. */
  function Request(r: DepRun, d: Dep): (res: Step)
    requires Valid(r)
    ensures Valid(res.run)
    ensures res.err == (if d.id in r.ran then r.ran[d.id].dep.body else d.body)
    ensures res.run.ran == r.ran[d.id := Once(if d.id in r.ran then r.ran[d.id].dep else d, Done(res.err))]
    ensures res.run.runs == if d.id in r.ran && r.ran[d.id].status.Done? then r.runs else r.runs + [d.id]
  {
    RunEntry(Get(r, d).run, d.id)
  }

  /** Whether the table already holds a finished wrapper for `id`, so that a
      request for `id` reuses the cached outcome instead of executing. */
  predicate Cached(r: DepRun, id: string)
  {
    id in r.ran && r.ran[id].status.Done?
  }

  /** The identifiers executed since the table was `r`, in execution order. */
  function NewRuns(r: DepRun, r': DepRun): seq<string>
    requires r.runs <= r'.runs
  {
    r'.runs[|r.runs|..]
  }

  /** When an operation finishes the wrappers of the identifiers `touched` and
      leaves every other wrapper alone, the bodies it executed are exactly the
      touched identifiers that were not cached, each once. */
  lemma NewlyExecuted(r: DepRun, r': DepRun, touched: set<string>)
    requires Valid(r) && Valid(r') && r.runs <= r'.runs
    requires r'.ran.Keys == r.ran.Keys + touched
    requires forall id :: id in touched ==> r'.ran[id].status.Done?
    requires forall id :: id in r.ran && id !in touched ==> r'.ran[id] == r.ran[id]
    ensures Distinct(NewRuns(r, r'))
    ensures forall id :: id in NewRuns(r, r') <==> id in touched && !Cached(r, id)
  {
    var later := NewRuns(r, r');
    assert r'.runs == r.runs + later;
    forall id
      ensures id in later <==> id in r'.runs && id !in r.runs
    {
      if id in later {
        var k :| 0 <= k < |later| && later[k] == id;
        assert r'.runs[|r.runs| + k] == id;
        forall j | 0 <= j < |r.runs|
          ensures r.runs[j] != id
        {
          assert r'.runs[j] == r.runs[j];
        }
      }
    }
    forall i, j | 0 <= i < j < |later|
      ensures later[i] != later[j]
    {
      assert later[i] == r'.runs[|r.runs| + i] && later[j] == r'.runs[|r.runs| + j];
    }
  }
}
