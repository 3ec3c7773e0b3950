/** `Serial` and `Parallel`: running a list of dependencies through the shared
    table, one after the other or all together. */
module Orchestrator {

  import opened Errors
  import opened Store

  /** The identifiers listed in the first `n` positions. */
  function IdsUpTo(deps: seq<Dep>, n: nat): set<string>
    requires n <= |deps|
  {
    set i | 0 <= i < n :: deps[i].id
  }

  /** The identifiers of all listed dependencies. */
  function Ids(deps: seq<Dep>): set<string>
  {
    IdsUpTo(deps, |deps|)
  }

  /** The first dependency listed at or after position `from` with identifier
      `id`, or `fallback` when there is none. */
  function FirstListed(deps: seq<Dep>, id: string, from: nat, fallback: Dep): (d: Dep)
    ensures fallback.id == id ==> d.id == id
    decreases |deps| - from
  {
    if from >= |deps| then fallback
    else if deps[from].id == id then deps[from]
    else FirstListed(deps, id, from + 1, fallback)
  }

  /** The first listed dependency with `id` is the one at the first position
      listing it. */
  lemma {:induction false} FirstListedAt(deps: seq<Dep>, id: string, from: nat, k: nat, fallback: Dep)
    requires from <= k < |deps| && deps[k].id == id
    requires forall j :: from <= j < k ==> deps[j].id != id
    ensures FirstListed(deps, id, from, fallback) == deps[k]
    decreases k - from
  {
    if from < k {
      FirstListedAt(deps, id, from + 1, k, fallback);
    }
  }

  /** The dependency whose body the table runs for position `i`: the one the
      wrapper registered under its identifier holds, otherwise the first listed
      with that identifier. */
  function Owner(r: DepRun, deps: seq<Dep>, i: nat): Dep
    requires i < |deps|
  {
    var id := deps[i].id;
    if id in r.ran then r.ran[id].dep else FirstListed(deps, id, 0, deps[i])
  }

  /** The outcome position `i` resolves to. */
  function Verdict(r: DepRun, deps: seq<Dep>, i: nat): Outcome
    requires i < |deps|
  {
    Owner(r, deps, i).body
  }

  /** Requesting position `from`, when every earlier position is registered
      already, leaves every position's owner as it was. */
  lemma OwnerStable(r: DepRun, r1: DepRun, deps: seq<Dep>, from: nat)
    requires from < |deps|
    requires forall j :: 0 <= j < from ==> deps[j].id in r.ran
    requires r1.ran.Keys == r.ran.Keys + {deps[from].id}
    requires forall id :: id in r.ran ==> r1.ran[id].dep == r.ran[id].dep
    requires deps[from].id !in r.ran ==> r1.ran[deps[from].id].dep == deps[from]
    ensures Owner(r, deps, from) == r1.ran[deps[from].id].dep
    ensures forall i :: 0 <= i < |deps| ==> Owner(r1, deps, i) == Owner(r, deps, i)
  {
    var id := deps[from].id;
    if id !in r.ran {
      forall i | 0 <= i < |deps| && deps[i].id == id
        ensures Owner(r, deps, i) == deps[from]
      {
        FirstListedAt(deps, id, 0, from, deps[i]);
      }
    }
  }

  /** The first position from `from` on whose outcome is a failure, or the
      length of the list when there is none. */
  function FirstFailure(r: DepRun, deps: seq<Dep>, from: nat): (k: nat)
    requires from <= |deps|
    ensures from <= k <= |deps|
    ensures forall i :: from <= i < k ==> Verdict(r, deps, i).Nil?
    ensures k < |deps| ==> Verdict(r, deps, k).Err?
    decreases |deps| - from
  {
    if from == |deps| || Verdict(r, deps, from).Err? then from
    else FirstFailure(r, deps, from + 1)
  }

  /** Tables that resolve every position alike agree on the first failure. */
  lemma {:induction false} FirstFailureStable(r: DepRun, r1: DepRun, deps: seq<Dep>, from: nat)
    requires from <= |deps|
    requires forall i :: from <= i < |deps| ==> Owner(r1, deps, i) == Owner(r, deps, i)
    ensures FirstFailure(r1, deps, from) == FirstFailure(r, deps, from)
    decreases |deps| - from
  {
    if from < |deps| {
      FirstFailureStable(r, r1, deps, from + 1);
    }
  }

  /** How many positions a serial run from `from` reaches: up to and including
      the first failure. */
  function Reached(r: DepRun, deps: seq<Dep>, from: nat): (n: nat)
    requires from <= |deps|
    ensures from <= n <= |deps|
  {
    var k := FirstFailure(r, deps, from);
    if k < |deps| then k + 1 else k
  }

  /** What the loop of `Serial` from `from` answers: nil exactly when every
      remaining position resolves to success, else the first failure wrapped
      with its identifier. */
  ghost predicate SerialAnswer(r: DepRun, deps: seq<Dep>, from: nat, err: Outcome)
    requires from <= |deps|
  {
    && (err.Nil? <==> forall i :: from <= i < |deps| ==> Verdict(r, deps, i).Nil?)
    && (FirstFailure(r, deps, from) < |deps| ==>
          var k := FirstFailure(r, deps, from);
          err == Err(Running(deps[k].id, Verdict(r, deps, k).error)))
  }

  /** What the loop of `Serial` from `from` leaves in the table: the positions
      up to the first failure resolved with their owner's outcome cached, and
      nothing else touched. */
  ghost predicate SerialTable(r: DepRun, deps: seq<Dep>, from: nat, r': DepRun)
    requires from <= |deps|
  {
    var n := Reached(r, deps, from);
    && r.runs <= r'.runs
    && r'.ran.Keys == r.ran.Keys + IdsUpTo(deps, n)
    && (forall i :: from <= i < n ==> r'.ran[deps[i].id] == Once(Owner(r, deps, i), Done(Verdict(r, deps, i))))
    && (forall id :: id in r.ran && (forall i :: from <= i < n ==> deps[i].id != id) ==> r'.ran[id] == r.ran[id])
  }

  /** The loop of `Serial` from position `from` on, every earlier position having
      been requested already. */
  function SerialFrom(r: DepRun, deps: seq<Dep>, from: nat): (res: Step)
    requires Valid(r) && from <= |deps|
    requires forall j :: 0 <= j < from ==> deps[j].id in r.ran
    ensures Valid(res.run)
    ensures SerialAnswer(r, deps, from, res.err)
    ensures SerialTable(r, deps, from, res.run)
    decreases |deps| - from
  {
    if from == |deps| then
      SerialFromEnd(r, deps, from);
      Step(r, Nil)
    else
      var s := Request(r, deps[from]);
      SerialFromRequest(r, deps, from, s);
      if s.err.Err? then
        Step(s.run, Err(Running(s.run.ran[deps[from].id].dep.id, s.err.error)))
      else
        var rest := SerialFrom(s.run, deps, from + 1);
        SerialFromCons(r, s.run, deps, from, rest);
        rest
  }

  /** The loop of `Serial` past the last position answers nil and changes nothing. */
  lemma SerialFromEnd(r: DepRun, deps: seq<Dep>, from: nat)
    requires from == |deps|
    requires forall j :: 0 <= j < from ==> deps[j].id in r.ran
    ensures SerialAnswer(r, deps, from, Nil)
    ensures SerialTable(r, deps, from, r)
  {
    assert r.ran.Keys + IdsUpTo(deps, from) == r.ran.Keys;
  }

  /** The request at `from` answers with the position's owner outcome and
      caches it; when that is a failure the loop stops there. */
  lemma SerialFromRequest(r: DepRun, deps: seq<Dep>, from: nat, s: Step)
    requires Valid(r) && from < |deps|
    requires forall j :: 0 <= j < from ==> deps[j].id in r.ran
    requires s == Request(r, deps[from])
    ensures s.err == Verdict(r, deps, from)
    ensures s.run.ran[deps[from].id].dep.id == deps[from].id
    ensures r.runs <= s.run.runs
    ensures s.run.ran.Keys == r.ran.Keys + {deps[from].id}
    ensures forall id :: id in r.ran && id != deps[from].id ==> s.run.ran[id] == r.ran[id]
    ensures s.run.ran[deps[from].id] == Once(Owner(r, deps, from), Done(Verdict(r, deps, from)))
    ensures forall i :: 0 <= i < |deps| ==> Owner(s.run, deps, i) == Owner(r, deps, i)
    ensures s.err.Err? ==>
      && SerialAnswer(r, deps, from, Err(Running(s.run.ran[deps[from].id].dep.id, s.err.error)))
      && SerialTable(r, deps, from, s.run)
  {
    OwnerStable(r, s.run, deps, from);
    if s.err.Err? {
      SerialFromFails(r, deps, from, s.run);
    }
  }

  /** A failing request at `from` ends the loop: its wrapped failure is the
      answer and only that position was resolved. */
  lemma SerialFromFails(r: DepRun, deps: seq<Dep>, from: nat, r1: DepRun)
    requires from < |deps| && Verdict(r, deps, from).Err?
    requires forall j :: 0 <= j < from ==> deps[j].id in r.ran
    requires r.runs <= r1.runs
    requires r1.ran.Keys == r.ran.Keys + {deps[from].id}
    requires forall id :: id in r.ran && id != deps[from].id ==> r1.ran[id] == r.ran[id]
    requires r1.ran[deps[from].id] == Once(Owner(r, deps, from), Done(Verdict(r, deps, from)))
    ensures SerialAnswer(r, deps, from, Err(Running(deps[from].id, Verdict(r, deps, from).error)))
    ensures SerialTable(r, deps, from, r1)
  {
    assert Reached(r, deps, from) == from + 1;
    assert IdsUpTo(deps, from + 1) == IdsUpTo(deps, from) + {deps[from].id};
  }

  /** The recursive case of the `Serial` loop: after a successful request at
      `from`, what the rest of the loop answers and leaves is what the loop from
      `from` does. */
  lemma SerialFromCons(r: DepRun, r1: DepRun, deps: seq<Dep>, from: nat, rest: Step)
    requires from < |deps|
    requires forall j :: 0 <= j < from ==> deps[j].id in r.ran
    requires Verdict(r, deps, from).Nil?
    requires r.runs <= r1.runs
    requires r1.ran.Keys == r.ran.Keys + {deps[from].id}
    requires forall id :: id in r.ran && id != deps[from].id ==> r1.ran[id] == r.ran[id]
    requires r1.ran[deps[from].id] == Once(Owner(r, deps, from), Done(Verdict(r, deps, from)))
    requires forall i :: 0 <= i < |deps| ==> Owner(r1, deps, i) == Owner(r, deps, i)
    requires SerialAnswer(r1, deps, from + 1, rest.err)
    requires SerialTable(r1, deps, from + 1, rest.run)
    ensures SerialAnswer(r, deps, from, rest.err)
    ensures SerialTable(r, deps, from, rest.run)
  {
    FirstFailureStable(r, r1, deps, from + 1);
    var n := Reached(r, deps, from);
    assert n == Reached(r1, deps, from + 1);
    var r' := rest.run;
    assert r.runs <= r'.runs;
    assert deps[from].id in IdsUpTo(deps, n);
    assert r'.ran.Keys == r.ran.Keys + IdsUpTo(deps, n);
    SerialFromConsEntries(r, r1, deps, from, n, r');
    forall id | id in r.ran && (forall i :: from <= i < n ==> deps[i].id != id)
      ensures r'.ran[id] == r.ran[id]
    {
      assert id != deps[from].id;
    }
  }

  lemma SerialFromConsEntries(r: DepRun, r1: DepRun, deps: seq<Dep>, from: nat, n: nat, r': DepRun)
    requires from < n <= |deps|
    requires deps[from].id in r1.ran
    requires forall i :: from <= i < n ==> deps[i].id in r'.ran
    requires r1.ran[deps[from].id] == Once(Owner(r, deps, from), Done(Verdict(r, deps, from)))
    requires forall i :: 0 <= i < |deps| ==> Owner(r1, deps, i) == Owner(r, deps, i)
    requires forall i :: from + 1 <= i < n ==> r'.ran[deps[i].id] == Once(Owner(r1, deps, i), Done(Verdict(r1, deps, i)))
    requires (forall i :: from + 1 <= i < n ==> deps[i].id != deps[from].id) ==> r'.ran[deps[from].id] == r1.ran[deps[from].id]
    ensures forall i :: from <= i < n ==> r'.ran[deps[i].id] == Once(Owner(r, deps, i), Done(Verdict(r, deps, i)))
  {
    var id0 := deps[from].id;
    if i :| from + 1 <= i < n && deps[i].id == id0 {
      assert Owner(r, deps, i) == Owner(r, deps, from);
    }
  }

  /** `Serial`: requests the dependencies in list order and stops at the first
      failure, which it returns wrapped with the failing identifier. It answers
      nil exactly when every position resolves to success, resolves no position
      after the first failure, caches each reached position's owner outcome and
      leaves every other wrapper untouched. */
  function Serial(r: DepRun, deps: seq<Dep>): (res: Step)
    requires Valid(r)
    ensures Valid(res.run)
    ensures r.runs <= res.run.runs
    ensures res.err.Nil? <==> forall i :: 0 <= i < |deps| ==> Verdict(r, deps, i).Nil?
    ensures FirstFailure(r, deps, 0) < |deps| ==>
      var k := FirstFailure(r, deps, 0);
      res.err == Err(Running(deps[k].id, Verdict(r, deps, k).error))
    ensures res.run.ran.Keys == r.ran.Keys + IdsUpTo(deps, Reached(r, deps, 0))
    ensures forall i :: 0 <= i < Reached(r, deps, 0) ==>
      res.run.ran[deps[i].id] == Once(Owner(r, deps, i), Done(Verdict(r, deps, i)))
    ensures forall id :: id in r.ran && id !in IdsUpTo(deps, Reached(r, deps, 0)) ==> res.run.ran[id] == r.ran[id]
  {
    SerialFrom(r, deps, 0)
  }

  /** The bodies `Serial` executes: each listed identifier up to the first
      failure whose outcome was not cached yet, each once; nothing after the
      first failure runs. */
  lemma SerialExecutes(r: DepRun, deps: seq<Dep>)
    requires Valid(r)
    ensures Distinct(NewRuns(r, Serial(r, deps).run))
    ensures forall id :: id in NewRuns(r, Serial(r, deps).run) <==> id in IdsUpTo(deps, Reached(r, deps, 0)) && !Cached(r, id)
  {
    var res := Serial(r, deps);
    var n := Reached(r, deps, 0);
    assert forall id :: id in IdsUpTo(deps, n) ==> res.run.ran[id].status.Done?;
    NewlyExecuted(r, res.run, IdsUpTo(deps, n));
  }

  /** `r'` is `r` after `get` was called for every position of `deps`: a
      wrapper for every listed identifier, holding its owner, the new ones
      pending, the old ones and the log untouched. */
  ghost predicate Resolved(r: DepRun, deps: seq<Dep>, r': DepRun)
  {
    && Valid(r')
    && r'.runs == r.runs
    && r'.ran.Keys == r.ran.Keys + Ids(deps)
    && (forall id :: id in r.ran ==> r'.ran[id] == r.ran[id])
    && (forall i :: 0 <= i < |deps| ==> r'.ran[deps[i].id].dep == Owner(r, deps, i))
    && (forall id :: id in r'.ran && id !in r.ran ==> r'.ran[id].status == Pending)
  }

  /** The loop of `Parallel` that calls `get` for each position from `from` on,
      every earlier position having been resolved already. Newly registered
      wrappers have not run yet. */
  function ResolveFrom(r: DepRun, deps: seq<Dep>, from: nat): (r': DepRun)
    requires Valid(r) && from <= |deps|
    requires forall j :: 0 <= j < from ==> deps[j].id in r.ran
    ensures Resolved(r, deps, r')
    decreases |deps| - from
  {
    if from == |deps| then
      assert Ids(deps) <= r.ran.Keys;
      r
    else
      var g := Get(r, deps[from]).run;
      OwnerStable(r, g, deps, from);
      assert deps[from].id in Ids(deps);
      ResolveFrom(g, deps, from + 1)
  }

  /** The failure, if any, reported for an outcome of the dependency `id`,
      wrapped with that identifier. */
  function Wrapped(id: string, o: Outcome): (errs: seq<Error>)
    ensures |errs| <= 1
    ensures o.Nil? <==> errs == []
  {
    if o.Err? then [Running(id, o.error)] else []
  }

  /** Positions `0` to `n - 1` in order. */
  function Positions(n: nat): (p: seq<nat>)
    ensures |p| == n && forall i :: 0 <= i < n ==> p[i] == i
  {
    if n == 0 then [] else Positions(n - 1) + [n - 1]
  }

  /** An order in which the goroutines of a `Parallel` call over `n` positions
      run their wrappers: every position exactly once. */
  predicate IsSchedule(schedule: seq<nat>, n: nat)
  {
    multiset(schedule) == multiset(Positions(n))
  }

  /** A schedule names exactly the positions of the list. */
  lemma ScheduleCovers(schedule: seq<nat>, n: nat)
    requires IsSchedule(schedule, n)
    ensures |schedule| == n
    ensures forall k :: 0 <= k < |schedule| ==> schedule[k] < n
    ensures forall i :: 0 <= i < n ==> i in schedule
  {
    var p := Positions(n);
    assert |schedule| == |multiset(schedule)| == |multiset(p)| == n;
    forall k | 0 <= k < |schedule|
      ensures schedule[k] < n
    {
      assert schedule[k] in multiset(p);
    }
    forall i | 0 <= i < n
      ensures i in schedule
    {
      assert p[i] in multiset(schedule);
    }
  }

  /** Positions all within the list, each listing a registered identifier. */
  ghost predicate Runnable(r: DepRun, deps: seq<Dep>, sched: seq<nat>)
  {
    && (forall k :: 0 <= k < |sched| ==> sched[k] < |deps|)
    && (forall i :: 0 <= i < |deps| ==> deps[i].id in r.ran)
  }

  /** The failures reported when the wrappers of the positions in `sched` run
      in that order, each reporting its registered body's outcome. */
  function Failures(r: DepRun, deps: seq<Dep>, sched: seq<nat>): seq<Error>
    requires Runnable(r, deps, sched)
    decreases |sched|
  {
    if |sched| == 0 then []
    else
      var last := deps[sched[|sched| - 1]].id;
      Failures(r, deps, sched[..|sched| - 1]) + Wrapped(last, r.ran[last].dep.body)
  }

  /** Running two batches of positions one after the other reports the first
      batch's failures, then the second's. */
  lemma {:induction false} FailuresAppend(r: DepRun, deps: seq<Dep>, a: seq<nat>, b: seq<nat>)
    requires Runnable(r, deps, a) && Runnable(r, deps, b)
    ensures Runnable(r, deps, a + b)
    ensures Failures(r, deps, a + b) == Failures(r, deps, a) + Failures(r, deps, b)
    decreases |b|
  {
    var ab := a + b;
    assert Runnable(r, deps, ab) by {
      assert forall k :: 0 <= k < |ab| ==> ab[k] == if k < |a| then a[k] else b[k - |a|];
    }
    if |b| == 0 {
      assert ab == a;
    } else {
      var b' := b[..|b| - 1];
      var x := b[|b| - 1];
      assert ab[..|ab| - 1] == a + b';
      assert ab[|ab| - 1] == x;
      assert Runnable(r, deps, b');
      FailuresAppend(r, deps, a, b');
      var w := Wrapped(deps[x].id, r.ran[deps[x].id].dep.body);
      assert Failures(r, deps, ab) == Failures(r, deps, a + b') + w;
      assert Failures(r, deps, b) == Failures(r, deps, b') + w;
    }
  }

  /** Running the same positions in another order reports the same failures,
      counted with multiplicity. */
  lemma {:induction false} FailuresPermutation(r: DepRun, deps: seq<Dep>, s: seq<nat>, t: seq<nat>)
    requires Runnable(r, deps, s) && Runnable(r, deps, t)
    requires multiset(s) == multiset(t)
    ensures multiset(Failures(r, deps, s)) == multiset(Failures(r, deps, t))
    decreases |s|
  {
    if |s| > 0 {
      var x := s[|s| - 1];
      var s' := s[..|s| - 1];
      assert x in multiset(t);
      var j :| 0 <= j < |t| && t[j] == x;
      var t' := RemoveAt(t, j);
      MultisetRemove(s, |s| - 1);
      MultisetRemove(t, j);
      FailuresRemove(r, deps, s, |s| - 1);
      FailuresRemove(r, deps, t, j);
      assert RemoveAt(s, |s| - 1) == s';
      FailuresPermutation(r, deps, s', t');
      calc {
        multiset(Failures(r, deps, s));
        multiset(Failures(r, deps, s')) + multiset(Failures(r, deps, [x]));
        multiset(Failures(r, deps, t')) + multiset(Failures(r, deps, [t[j]]));
        multiset(Failures(r, deps, t));
      }
    } else {
      assert |multiset(t)| == |t|;
    }
  }

  /** The sequence `t` without its element at position `j`. */
  function RemoveAt<T>(t: seq<T>, j: nat): (u: seq<T>)
    requires j < |t|
    ensures |u| == |t| - 1
    ensures forall k :: 0 <= k < |u| ==> u[k] == (if k < j then t[k] else t[k + 1])
  {
    t[..j] + t[j + 1..]
  }

  lemma MultisetRemove<T>(t: seq<T>, j: nat)
    requires j < |t|
    ensures multiset(RemoveAt(t, j)) == multiset(t) - multiset{t[j]}
  {
    assert t == t[..j] + [t[j]] + t[j + 1..];
  }

  /** Running the positions of `t` reports what running them without
      position `j` reports, plus what running `t[j]` alone reports. */
  lemma FailuresRemove(r: DepRun, deps: seq<Dep>, t: seq<nat>, j: nat)
    requires Runnable(r, deps, t) && j < |t|
    ensures Runnable(r, deps, RemoveAt(t, j)) && Runnable(r, deps, [t[j]])
    ensures multiset(Failures(r, deps, t))
         == multiset(Failures(r, deps, RemoveAt(t, j))) + multiset(Failures(r, deps, [t[j]]))
  {
    var t1, t2 := t[..j], t[j + 1..];
    assert t == t1 + [t[j]] + t2;
    FailuresAppend(r, deps, t1, [t[j]]);
    FailuresAppend(r, deps, t1 + [t[j]], t2);
    FailuresAppend(r, deps, t1, t2);
  }

  /** The failures of the first `n` positions in list order, each wrapped with
      its identifier: the reference for what `Parallel` reports. */
  function Expected(r: DepRun, deps: seq<Dep>, n: nat): seq<Error>
    requires n <= |deps|
  {
    if n == 0 then []
    else Expected(r, deps, n - 1) + Wrapped(deps[n - 1].id, Verdict(r, deps, n - 1))
  }

  /** No failure is expected exactly when every position resolves to success. */
  lemma {:induction false} ExpectedEmpty(r: DepRun, deps: seq<Dep>, n: nat)
    requires n <= |deps|
    ensures Expected(r, deps, n) == [] <==> forall i :: 0 <= i < n ==> Verdict(r, deps, i).Nil?
  {
    if n > 0 {
      ExpectedEmpty(r, deps, n - 1);
      var v := Verdict(r, deps, n - 1);
      assert Expected(r, deps, n) == Expected(r, deps, n - 1) + Wrapped(deps[n - 1].id, v);
      if Expected(r, deps, n) == [] {
        assert v.Nil? && Expected(r, deps, n - 1) == [];
      } else if Expected(r, deps, n - 1) == [] {
        assert v.Err?;
      }
    }
  }

  /** Every failing position contributes its wrapped failure. */
  lemma {:induction false} ExpectedHas(r: DepRun, deps: seq<Dep>, n: nat, i: nat)
    requires i < n <= |deps| && Verdict(r, deps, i).Err?
    ensures Running(deps[i].id, Verdict(r, deps, i).error) in Expected(r, deps, n)
  {
    if i < n - 1 {
      ExpectedHas(r, deps, n - 1, i);
    }
  }

  /** Every expected failure is the wrapped failure of a failing position. */
  lemma {:induction false} ExpectedFrom(r: DepRun, deps: seq<Dep>, n: nat, e: Error)
    requires n <= |deps| && e in Expected(r, deps, n)
    ensures exists i :: 0 <= i < n && Verdict(r, deps, i).Err? && e == Running(deps[i].id, Verdict(r, deps, i).error)
  {
    var v := Verdict(r, deps, n - 1);
    assert Expected(r, deps, n) == Expected(r, deps, n - 1) + Wrapped(deps[n - 1].id, v);
    if e in Expected(r, deps, n - 1) {
      ExpectedFrom(r, deps, n - 1, e);
    } else {
      assert v.Err? && e == Running(deps[n - 1].id, v.error);
    }
  }

  /** Running the positions in list order over a table whose wrappers hold the
      owners reports exactly the expected failures. */
  lemma {:induction false} FailuresInOrder(r0: DepRun, r: DepRun, deps: seq<Dep>, n: nat)
    requires n <= |deps|
    requires forall i :: 0 <= i < |deps| ==> deps[i].id in r.ran && r.ran[deps[i].id].dep == Owner(r0, deps, i)
    ensures Runnable(r, deps, Positions(n))
    ensures Failures(r, deps, Positions(n)) == Expected(r0, deps, n)
  {
    if n > 0 {
      FailuresInOrder(r0, r, deps, n - 1);
      FailuresInOrderStep(r0, r, deps, n);
    }
  }

  /** The last position's step of `FailuresInOrder`. */
  lemma FailuresInOrderStep(r0: DepRun, r: DepRun, deps: seq<Dep>, n: nat)
    requires 0 < n <= |deps|
    requires Runnable(r, deps, Positions(n - 1)) && Runnable(r, deps, Positions(n))
    requires deps[n - 1].id in r.ran && r.ran[deps[n - 1].id].dep == Owner(r0, deps, n - 1)
    requires Failures(r, deps, Positions(n - 1)) == Expected(r0, deps, n - 1)
    ensures Failures(r, deps, Positions(n)) == Expected(r0, deps, n)
  {
    var p := Positions(n);
    assert p[..n - 1] == Positions(n - 1);
    var id := deps[n - 1].id;
    assert p[n - 1] == n - 1;
    assert Failures(r, deps, p) == Failures(r, deps, Positions(n - 1)) + Wrapped(id, r.ran[id].dep.body);
    assert Verdict(r0, deps, n - 1) == r.ran[id].dep.body;
  }

  /** The wrappers after the goroutines ran, and the failures they reported. */
  datatype Collected = Collected(run: DepRun, errs: seq<Error>)

  /** What running the wrappers of `sched` in that order does: each scheduled
      wrapper finishes with its body's outcome, nothing else changes, and the
      failures are reported in schedule order. */
  ghost predicate RanInOrder(r: DepRun, deps: seq<Dep>, sched: seq<nat>, res: Collected)
    requires Runnable(r, deps, sched)
  {
    && Valid(res.run)
    && r.runs <= res.run.runs
    && res.run.ran.Keys == r.ran.Keys
    && (forall id :: id in r.ran ==> res.run.ran[id].dep == r.ran[id].dep)
    && (forall k :: 0 <= k < |sched| ==>
          res.run.ran[deps[sched[k]].id].status == Done(r.ran[deps[sched[k]].id].dep.body))
    && (forall id :: id in r.ran && (forall k :: 0 <= k < |sched| ==> deps[sched[k]].id != id) ==>
          res.run.ran[id] == r.ran[id])
    && res.errs == Failures(r, deps, sched)
  }

  /** The goroutines of `Parallel`, run one after the other in the order
      `sched`: each runs its position's wrapper and reports a failure wrapped
      with the wrapper's identifier. */
  function RunAll(r: DepRun, deps: seq<Dep>, sched: seq<nat>): (res: Collected)
    requires Valid(r) && Runnable(r, deps, sched)
    ensures RanInOrder(r, deps, sched, res)
    decreases |sched|
  {
    if |sched| == 0 then Collected(r, [])
    else
      var prefix := sched[..|sched| - 1];
      assert Runnable(r, deps, prefix);
      var pre := RunAll(r, deps, prefix);
      RunAllSnoc(r, deps, sched, pre)
  }

  /** One more goroutine, the one for the last scheduled position, runs its
      wrapper after those of the schedule's prefix. */
  function RunAllSnoc(r: DepRun, deps: seq<Dep>, sched: seq<nat>, pre: Collected): (res: Collected)
    requires Valid(r) && |sched| > 0 && Runnable(r, deps, sched)
    requires Runnable(r, deps, sched[..|sched| - 1])
    requires RanInOrder(r, deps, sched[..|sched| - 1], pre)
    ensures RanInOrder(r, deps, sched, res)
  {
    var prefix := sched[..|sched| - 1];
    var id := deps[sched[|sched| - 1]].id;
    var s := RunEntry(pre.run, id);
    assert forall k :: 0 <= k < |prefix| ==> prefix[k] == sched[k];
    Collected(s.run, pre.errs + Wrapped(pre.run.ran[id].dep.id, s.err))
  }

  /** `Parallel`: calls `get` for every position in list order, lets one
      goroutine per position run its wrapper in the order `schedule`, waits for
      all of them and joins the failures they report. Every position runs
      whatever its siblings do; the answer is nil exactly when every position
      resolves to success, and otherwise joins one wrapped failure per failing
      position, duplicates included, in an order the schedule decides. */
  function Parallel(r: DepRun, deps: seq<Dep>, schedule: seq<nat>): (res: Step)
    requires Valid(r)
    requires IsSchedule(schedule, |deps|)
    ensures Valid(res.run)
    ensures r.runs <= res.run.runs
    ensures res.run.ran.Keys == r.ran.Keys + Ids(deps)
    ensures forall id :: id in r.ran && id !in Ids(deps) ==> res.run.ran[id] == r.ran[id]
    ensures forall i :: 0 <= i < |deps| ==> res.run.ran[deps[i].id] == Once(Owner(r, deps, i), Done(Verdict(r, deps, i)))
    ensures res.err.Nil? <==> forall i :: 0 <= i < |deps| ==> Verdict(r, deps, i).Nil?
    ensures res.err.Err? ==> res.err.error.Joined? && multiset(res.err.error.errs) == multiset(Expected(r, deps, |deps|))
  {
    var resolved := ResolveFrom(r, deps, 0);
    ScheduleCovers(schedule, |deps|);
    var c := RunAll(resolved, deps, schedule);
    ParallelCorrect(r, deps, schedule, resolved, c);
    assert multiset(c.errs) == multiset(Expected(r, deps, |deps|));
    Step(c.run, Join(c.errs))
  }

  /** The bodies `Parallel` executes: each listed identifier whose outcome
      was not cached yet, each once, whatever its siblings do. */
  lemma ParallelExecutes(r: DepRun, deps: seq<Dep>, schedule: seq<nat>)
    requires Valid(r) && IsSchedule(schedule, |deps|)
    ensures Distinct(NewRuns(r, Parallel(r, deps, schedule).run))
    ensures forall id :: id in NewRuns(r, Parallel(r, deps, schedule).run) <==> id in Ids(deps) && !Cached(r, id)
  {
    var res := Parallel(r, deps, schedule);
    assert forall id :: id in Ids(deps) ==> res.run.ran[id].status.Done?;
    NewlyExecuted(r, res.run, Ids(deps));
  }

  /** What `Parallel` needs about resolving then running in schedule order. */
  lemma ParallelCorrect(r: DepRun, deps: seq<Dep>, schedule: seq<nat>, resolved: DepRun, c: Collected)
    requires Valid(r) && IsSchedule(schedule, |deps|)
    requires Resolved(r, deps, resolved)
    requires Runnable(resolved, deps, schedule)
    requires RanInOrder(resolved, deps, schedule, c)
    ensures c.run.ran.Keys == r.ran.Keys + Ids(deps)
    ensures forall id :: id in r.ran && id !in Ids(deps) ==> c.run.ran[id] == r.ran[id]
    ensures forall i :: 0 <= i < |deps| ==> c.run.ran[deps[i].id] == Once(Owner(r, deps, i), Done(Verdict(r, deps, i)))
    ensures multiset(c.errs) == multiset(Expected(r, deps, |deps|))
    ensures c.errs == [] <==> forall i :: 0 <= i < |deps| ==> Verdict(r, deps, i).Nil?
  {
    ScheduleCovers(schedule, |deps|);
    ParallelEntries(r, deps, schedule, resolved, c);
    ParallelUntouched(r, deps, schedule, resolved, c);
    ParallelFailures(r, deps, schedule, resolved, c);
  }

  /** Every listed position's wrapper ends holding its owner and the owner's
      outcome. */
  lemma ParallelEntries(r: DepRun, deps: seq<Dep>, schedule: seq<nat>, resolved: DepRun, c: Collected)
    requires Valid(r)
    requires forall i :: 0 <= i < |deps| ==> i in schedule
    requires Resolved(r, deps, resolved)
    requires Runnable(resolved, deps, schedule)
    requires RanInOrder(resolved, deps, schedule, c)
    ensures forall i :: 0 <= i < |deps| ==> c.run.ran[deps[i].id] == Once(Owner(r, deps, i), Done(Verdict(r, deps, i)))
  {
    forall i | 0 <= i < |deps|
      ensures c.run.ran[deps[i].id] == Once(Owner(r, deps, i), Done(Verdict(r, deps, i)))
    {
      assert i in schedule;
      var k :| 0 <= k < |schedule| && schedule[k] == i;
    }
  }

  /** Wrappers of identifiers the list does not mention are left alone. */
  lemma ParallelUntouched(r: DepRun, deps: seq<Dep>, schedule: seq<nat>, resolved: DepRun, c: Collected)
    requires Valid(r)
    requires Resolved(r, deps, resolved)
    requires Runnable(resolved, deps, schedule)
    requires RanInOrder(resolved, deps, schedule, c)
    ensures c.run.ran.Keys == r.ran.Keys + Ids(deps)
    ensures forall id :: id in r.ran && id !in Ids(deps) ==> c.run.ran[id] == r.ran[id]
  {
    forall id | id in r.ran && id !in Ids(deps)
      ensures c.run.ran[id] == r.ran[id]
    {
      assert forall k :: 0 <= k < |schedule| ==> deps[schedule[k]].id in Ids(deps);
    }
  }

  /** The reported failures are the expected ones, in some order. */
  lemma ParallelFailures(r: DepRun, deps: seq<Dep>, schedule: seq<nat>, resolved: DepRun, c: Collected)
    requires Valid(r) && IsSchedule(schedule, |deps|)
    requires Resolved(r, deps, resolved)
    requires Runnable(resolved, deps, schedule)
    requires RanInOrder(resolved, deps, schedule, c)
    ensures multiset(c.errs) == multiset(Expected(r, deps, |deps|))
    ensures c.errs == [] <==> forall i :: 0 <= i < |deps| ==> Verdict(r, deps, i).Nil?
  {
    var n := |deps|;
    ScheduleCovers(schedule, n);
    FailuresInOrder(r, resolved, deps, n);
    FailuresPermutation(resolved, deps, schedule, Positions(n));
    ExpectedEmpty(r, deps, n);
    assert |multiset(c.errs)| == |c.errs|;
    assert |multiset(Expected(r, deps, n))| == |Expected(r, deps, n)|;
  }
}
