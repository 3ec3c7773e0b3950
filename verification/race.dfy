/** `get` as written takes only the read lock, so two callers — goroutines of
    a `Parallel` call whose bodies request dependencies of their own — can both
    be between the lookup and the insertion at once. This module models the
    two steps separately and shows the interleaving that runs a body twice;
    the rest of the model uses the atomic `Store.Get`, the evidently intended
    behaviour. */
module Race {

  import opened Store

  /** What one caller of `get` saw when it looked the identifier up. */
  datatype Lookup = Found(once: Once) | Missing

  /** The lookup half of `get`, made under the shared read lock. */
  function LookupAsWritten(r: DepRun, d: Dep): (l: Lookup)
    ensures l.Found? <==> d.id in r.ran
    ensures l.Found? ==> l.once == r.ran[d.id]
  {
    if d.id in r.ran then Found(r.ran[d.id]) else Missing
  }

  /** The insertion half of `get`: a caller that saw nothing stores a new
      wrapper for `d`, replacing whatever another caller stored meanwhile, and
      keeps that new wrapper for itself. */
  function InsertAsWritten(r: DepRun, d: Dep, seen: Lookup): (res: Resolution)
    ensures seen.Found? ==> res == Resolution(r, seen.once)
    ensures seen.Missing? ==> res.once == Once(d, Pending) && d.id in res.run.ran && res.run.ran[d.id] == res.once
    ensures seen.Missing? ==> forall id :: id in r.ran && id != d.id ==> id in res.run.ran && res.run.ran[id] == r.ran[id]
    ensures res.run.runs == r.runs
  {
    match seen
    case Found(once) => Resolution(r, once)
    case Missing =>
      var once := Once(d, Pending);
      Resolution(r.(ran := r.ran[d.id := once]), once)
  }

  /** Two callers requesting `d` the way the code as written allows: both
      look up before either inserts, the second insertion replaces the first
      wrapper, and each caller then runs the wrapper it holds. Running the
      first caller's detached wrapper does not touch the table. */
  function InterleavedRequests(r: DepRun, d: Dep): (r': DepRun)
    ensures d.id in r'.ran
    ensures forall id :: id in r.ran && id != d.id ==> id in r'.ran && r'.ran[id] == r.ran[id]
  {
    var a := LookupAsWritten(r, d);
    var b := LookupAsWritten(r, d);
    var first := InsertAsWritten(r, d, a);
    var second := InsertAsWritten(first.run, d, b);
    var callA := Run(first.once);
    var afterA := if callA.executed then second.run.(runs := second.run.runs + [d.id]) else second.run;
    var callB := Run(second.once);
    var afterB := afterA.(ran := afterA.ran[d.id := callB.once]);
    if callB.executed then afterB.(runs := afterB.runs + [d.id]) else afterB
  }

  /** On a table that has not seen `d`, the interleaving executes its body
      twice: the table it leaves breaks the at-most-once invariant. */
  lemma InterleavedRequestsRunTwice(r: DepRun, d: Dep)
    requires Valid(r) && d.id !in r.ran
    ensures InterleavedRequests(r, d).runs == r.runs + [d.id, d.id]
    ensures !Valid(InterleavedRequests(r, d))
  {
    var r' := InterleavedRequests(r, d);
    assert r'.runs[|r.runs|] == r'.runs[|r.runs| + 1];
  }

  /** With `get` atomic, as `Store.Get` models it, the second caller receives
      the wrapper the first stored: the body executes once and both callers
      get its outcome. */
  lemma SequentialRequestsRunOnce(r: DepRun, d: Dep)
    requires Valid(r) && d.id !in r.ran
    ensures Get(Get(r, d).run, d).once == Get(r, d).once
    ensures Request(Request(r, d).run, d).run.runs == r.runs + [d.id]
    ensures Request(Request(r, d).run, d).err == Request(r, d).err == d.body
    ensures Valid(Request(Request(r, d).run, d).run)
  {
  }
}
