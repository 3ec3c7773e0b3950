/** Sequences of `Serial`, `Parallel` and `Reset` calls made on one shared
    dependency run, and what the table promises across them. */
module Calls {

  import opened Errors
  import opened Store
  import opened Orchestrator

  /** One call on the shared table. A `Parallel` call carries the order in
      which its goroutines reach their wrappers. */
  datatype Call =
    | SerialCall(deps: seq<Dep>)
    | ParallelCall(deps: seq<Dep>, schedule: seq<nat>)
    | ResetCall

  /** A `Parallel` call's schedule runs each of its positions once. */
  predicate WellScheduled(c: Call)
  {
    c.ParallelCall? ==> IsSchedule(c.schedule, |c.deps|)
  }

  predicate AllWellScheduled(calls: seq<Call>)
  {
    forall i :: 0 <= i < |calls| ==> WellScheduled(calls[i])
  }

  predicate NoReset(calls: seq<Call>)
  {
    forall i :: 0 <= i < |calls| ==> !calls[i].ResetCall?
  }

  /** The failure a request reports for an outcome of `id`, wrapped the way
      `Serial` wraps it. */
  function Reported(id: string, o: Outcome): (err: Outcome)
    ensures err.Nil? <==> o.Nil?
    ensures err.Err? ==> Wrapped(id, o) == [err.error]
  {
    if o.Err? then Err(Running(id, o.error)) else Nil
  }

  /** A finished wrapper stays as it is: `Serial` and `Parallel` never replace
      a cached outcome. */
  lemma SerialKeepsCached(r: DepRun, deps: seq<Dep>)
    requires Valid(r)
    ensures forall id :: Cached(r, id) ==> id in Serial(r, deps).run.ran && Serial(r, deps).run.ran[id] == r.ran[id]
  {
    var res := Serial(r, deps);
    var n := Reached(r, deps, 0);
    forall id | Cached(r, id)
      ensures id in res.run.ran && res.run.ran[id] == r.ran[id]
    {
      if id in IdsUpTo(deps, n) {
        var i :| 0 <= i < n && deps[i].id == id;
        assert Owner(r, deps, i) == r.ran[id].dep;
      }
    }
  }

  lemma ParallelKeepsCached(r: DepRun, deps: seq<Dep>, schedule: seq<nat>)
    requires Valid(r) && IsSchedule(schedule, |deps|)
    ensures forall id :: Cached(r, id) ==> id in Parallel(r, deps, schedule).run.ran && Parallel(r, deps, schedule).run.ran[id] == r.ran[id]
  {
    var res := Parallel(r, deps, schedule);
    forall id | Cached(r, id)
      ensures id in res.run.ran && res.run.ran[id] == r.ran[id]
    {
      if id in Ids(deps) {
        var i :| 0 <= i < |deps| && deps[i].id == id;
        assert Owner(r, deps, i) == r.ran[id].dep;
      }
    }
  }

  /** One call on the table. `Reset` reports nothing. */
  function Perform(r: DepRun, c: Call): (res: Step)
    requires Valid(r) && WellScheduled(c)
    ensures Valid(res.run)
    ensures !c.ResetCall? ==> r.runs <= res.run.runs
    ensures !c.ResetCall? ==> forall id :: Cached(r, id) ==> id in res.run.ran && res.run.ran[id] == r.ran[id]
    ensures c.ResetCall? ==> res.run.ran == map[] && res.run.runs == []
  {
    match c
    case SerialCall(deps) =>
      SerialKeepsCached(r, deps);
      Serial(r, deps)
    case ParallelCall(deps, schedule) =>
      ParallelKeepsCached(r, deps, schedule);
      Parallel(r, deps, schedule)
    case ResetCall =>
      Step(Reset(r), Nil)
  }

  /** The table after the calls, in order. Between resets the log of executed
      bodies only grows, and every cached outcome stays cached. */
  function Apply(r: DepRun, calls: seq<Call>): (res: DepRun)
    requires Valid(r) && AllWellScheduled(calls)
    ensures Valid(res)
    ensures NoReset(calls) ==> r.runs <= res.runs
    ensures NoReset(calls) ==> forall id :: Cached(r, id) ==> id in res.ran && res.ran[id] == r.ran[id]
    decreases |calls|
  {
    if |calls| == 0 then r
    else
      var prefix := calls[..|calls| - 1];
      assert forall i :: 0 <= i < |prefix| ==> prefix[i] == calls[i];
      Perform(Apply(r, prefix), calls[|calls| - 1]).run
  }

  /** Running calls one batch after the other is running them all. */
  lemma {:induction false} ApplyAppend(r: DepRun, a: seq<Call>, b: seq<Call>)
    requires Valid(r) && AllWellScheduled(a) && AllWellScheduled(b)
    ensures AllWellScheduled(a + b)
    ensures Apply(r, a + b) == Apply(Apply(r, a), b)
    decreases |b|
  {
    if |b| == 0 {
      assert a + b == a;
    } else {
      var b' := b[..|b| - 1];
      assert (a + b)[..|a + b| - 1] == a + b';
      assert forall i :: 0 <= i < |b'| ==> b'[i] == b[i];
      ApplyAppend(r, a, b');
    }
  }

  /** At most once per identifier, across any calls without a reset: no body
      executes twice, and none whose outcome was already cached executes again. */
  lemma AtMostOnceAcrossCalls(r: DepRun, calls: seq<Call>)
    requires Valid(r) && AllWellScheduled(calls) && NoReset(calls)
    ensures r.runs <= Apply(r, calls).runs
    ensures Distinct(NewRuns(r, Apply(r, calls)))
    ensures forall id :: id in NewRuns(r, Apply(r, calls)) ==> !Cached(r, id)
  {
    var res := Apply(r, calls);
    var later := NewRuns(r, res);
    assert res.runs == r.runs + later;
    forall i, j | 0 <= i < j < |later|
      ensures later[i] != later[j]
    {
      assert later[i] == res.runs[|r.runs| + i] && later[j] == res.runs[|r.runs| + j];
    }
    forall id | id in later
      ensures !Cached(r, id)
    {
      var k :| 0 <= k < |later| && later[k] == id;
      assert res.runs[|r.runs| + k] == id;
      forall j | 0 <= j < |r.runs|
        ensures r.runs[j] != id
      {
        assert res.runs[j] == r.runs[j];
      }
    }
  }

  /** Cached outcome reuse: once an identifier has finished, a later request
      for it, whatever body it carries and whatever calls without a reset ran
      in between, reports the cached outcome and executes nothing. */
  lemma CachedOutcomeReused(r: DepRun, calls: seq<Call>, d: Dep)
    requires Valid(r) && AllWellScheduled(calls) && NoReset(calls)
    requires Cached(r, d.id)
    ensures Serial(Apply(r, calls), [d]).err == Reported(d.id, r.ran[d.id].status.err)
    ensures Serial(Apply(r, calls), [d]).run == Apply(r, calls)
  {
    var m := Apply(r, calls);
    var s := Serial(m, [d]);
    assert Owner(m, [d], 0) == r.ran[d.id].dep;
    assert IdsUpTo([d], Reached(m, [d], 0)) == {d.id};
    assert Ids([d]) == {d.id};
    assert Cached(m, d.id);
    SerialExecutes(m, [d]);
    NoNewRun(m, s.run);
    assert s.run.ran == m.ran;
  }

  /** `n` copies of `x`: a dependency listed `n` times, or the failure it
      reports once per position. */
  function Repeat<T>(x: T, n: nat): (xs: seq<T>)
    ensures |xs| == n
    ensures forall i :: 0 <= i < n ==> xs[i] == x
  {
    if n == 0 then [] else Repeat(x, n - 1) + [x]
  }

  /** A list of one repeated, unregistered dependency resolves every position
      to that dependency's own body. */
  lemma RepeatOwner(r: DepRun, d: Dep, n: nat)
    requires Valid(r) && d.id !in r.ran
    ensures forall i :: 0 <= i < n ==> Owner(r, Repeat(d, n), i) == d
  {
    var deps := Repeat(d, n);
    if n > 0 {
      forall i | 0 <= i < n
        ensures Owner(r, deps, i) == d
      {
        FirstListedAt(deps, d.id, 0, 0, d);
      }
    }
  }

  /** A log without repetitions whose entries all name `x`, and which names
      `x`, is `[x]`. */
  lemma OnlyEntry(s: seq<string>, x: string)
    requires Distinct(s) && x in s
    requires forall y :: y in s ==> y == x
    ensures s == [x]
  {
    assert forall k :: 0 <= k < |s| ==> s[k] in s;
    assert |s| > 0;
    var last := |s| - 1;
    assert s[0] == x && s[last] == x;
    assert forall i, j :: 0 <= i < |s| && 0 <= j < |s| && s[i] == s[j] ==> i == j;
    assert last == 0;
  }

  /** An operation whose only new execution is `x` appends `x` to the log. */
  lemma OnlyNewRun(r: DepRun, r': DepRun, x: string)
    requires r.runs <= r'.runs && Distinct(NewRuns(r, r'))
    requires forall id :: id in NewRuns(r, r') <==> id == x
    ensures r'.runs == r.runs + [x]
  {
    OnlyEntry(NewRuns(r, r'), x);
    assert r'.runs == r.runs + NewRuns(r, r');
  }

  /** An operation that executes nothing leaves the log as it was. */
  lemma NoNewRun(r: DepRun, r': DepRun)
    requires r.runs <= r'.runs
    requires forall id :: id !in NewRuns(r, r')
    ensures r'.runs == r.runs
  {
    forall x
      ensures multiset(NewRuns(r, r'))[x] == 0
    {
      assert x !in NewRuns(r, r');
    }
    assert multiset(NewRuns(r, r')) == multiset{};
    assert |NewRuns(r, r')| == |multiset(NewRuns(r, r'))| == 0;
    assert r'.runs == r.runs + NewRuns(r, r');
  }

  /** Listing the same dependency several times in `Serial` executes its body
      once and reports its outcome once. */
  lemma SerialDuplicatesRunOnce(r: DepRun, d: Dep, n: nat)
    requires Valid(r) && d.id !in r.ran && n > 0
    ensures Serial(r, Repeat(d, n)).run.runs == r.runs + [d.id]
    ensures Serial(r, Repeat(d, n)).err == Reported(d.id, d.body)
  {
    var deps := Repeat(d, n);
    var s := Serial(r, deps);
    RepeatIds(d, n, Reached(r, deps, 0));
    SerialExecutes(r, deps);
    OnlyNewRun(r, s.run, d.id);
    SerialRepeatOutcome(r, d, n);
  }

  /** A list of one repeated dependency resolves every position to the
      dependency's own body, so `Serial` reports that body's outcome. */
  lemma SerialRepeatOutcome(r: DepRun, d: Dep, n: nat)
    requires Valid(r) && d.id !in r.ran && n > 0
    ensures Serial(r, Repeat(d, n)).err == Reported(d.id, d.body)
  {
    var deps := Repeat(d, n);
    RepeatOwner(r, d, n);
    if d.body.Err? {
      assert FirstFailure(r, deps, 0) == 0;
    }
  }

  /** Two different dependencies with one identifier, neither registered: the
      first listed is the one registered, its body alone executes, and its
      outcome is what `Serial` reports. The second body never runs. */
  lemma FirstRegisteredWins(r: DepRun, d1: Dep, d2: Dep)
    requires Valid(r) && d1.id == d2.id && d1.id !in r.ran
    ensures Serial(r, [d1, d2]).run.runs == r.runs + [d1.id]
    ensures Serial(r, [d1, d2]).err == Reported(d1.id, d1.body)
    ensures Serial(r, [d1, d2]).run.ran[d1.id] == Once(d1, Done(d1.body))
  {
    var deps := [d1, d2];
    var s := Serial(r, deps);
    FirstRegisteredResolution(r, d1, d2);
    SerialExecutes(r, deps);
    OnlyNewRun(r, s.run, d1.id);
  }

  /** How `Serial` resolves `[d1, d2]` when they share an unregistered
      identifier: both positions are owned by `d1`, and only that identifier is
      reached. */
  lemma FirstRegisteredResolution(r: DepRun, d1: Dep, d2: Dep)
    requires Valid(r) && d1.id == d2.id && d1.id !in r.ran
    ensures Owner(r, [d1, d2], 0) == d1 && Owner(r, [d1, d2], 1) == d1
    ensures IdsUpTo([d1, d2], Reached(r, [d1, d2], 0)) == {d1.id}
    ensures FirstFailure(r, [d1, d2], 0) == if d1.body.Err? then 0 else 2
  {
    var deps := [d1, d2];
    FirstListedAt(deps, d1.id, 0, 0, d1);
    FirstListedAt(deps, d1.id, 0, 0, d2);
    assert Verdict(r, deps, 0) == d1.body && Verdict(r, deps, 1) == d1.body;
    var n := Reached(r, deps, 0);
    assert deps[0].id in IdsUpTo(deps, n);
  }

  /** The expected failures of a list of one repeated dependency are one per
      position. */
  lemma {:induction false} ExpectedRepeat(r: DepRun, d: Dep, n: nat, k: nat)
    requires Valid(r) && d.id !in r.ran && d.body.Err? && k <= n
    ensures Expected(r, Repeat(d, n), k) == Repeat(Running(d.id, d.body.error), k)
  {
    RepeatOwner(r, d, n);
    if k > 0 {
      ExpectedRepeat(r, d, n, k - 1);
    }
  }

  /** A sequence holding exactly `n` copies of `e` is those copies. */
  lemma SameAsRepeat(errs: seq<Error>, e: Error, n: nat)
    requires multiset(errs) == multiset(Repeat(e, n))
    ensures errs == Repeat(e, n)
  {
    assert |errs| == |multiset(errs)| == n;
    forall i | 0 <= i < |errs|
      ensures errs[i] == e
    {
      assert errs[i] in multiset(Repeat(e, n));
    }
  }

  /** Listing the same dependency several times in `Parallel` executes its
      body once but reports its failure, if any, once per position. */
  lemma ParallelDuplicates(r: DepRun, d: Dep, n: nat, schedule: seq<nat>)
    requires Valid(r) && d.id !in r.ran && n > 0 && IsSchedule(schedule, n)
    ensures Parallel(r, Repeat(d, n), schedule).run.runs == r.runs + [d.id]
    ensures d.body.Nil? ==> Parallel(r, Repeat(d, n), schedule).err == Nil
    ensures d.body.Err? ==> Parallel(r, Repeat(d, n), schedule).err == Err(Joined(Repeat(Running(d.id, d.body.error), n)))
  {
    ParallelDuplicatesRunOnce(r, d, n, schedule);
    if d.body.Err? {
      ParallelDuplicatesFail(r, d, n, schedule);
    } else {
      ParallelDuplicatesSucceed(r, d, n, schedule);
    }
  }

  /** The identifiers of a repeated dependency, up to any position past the
      first, are its own. */
  lemma RepeatIds(d: Dep, n: nat, m: nat)
    requires 0 < m <= n
    ensures IdsUpTo(Repeat(d, n), m) == {d.id}
  {
    assert Repeat(d, n)[0].id in IdsUpTo(Repeat(d, n), m);
  }

  /** A repeated dependency executes once in `Parallel`. */
  lemma ParallelDuplicatesRunOnce(r: DepRun, d: Dep, n: nat, schedule: seq<nat>)
    requires Valid(r) && d.id !in r.ran && n > 0 && IsSchedule(schedule, n)
    ensures Parallel(r, Repeat(d, n), schedule).run.runs == r.runs + [d.id]
  {
    var deps := Repeat(d, n);
    RepeatIds(d, n, n);
    ParallelExecutes(r, deps, schedule);
    OnlyNewRun(r, Parallel(r, deps, schedule).run, d.id);
  }

  /** A repeated failing dependency fails once per position in `Parallel`. */
  lemma ParallelDuplicatesFail(r: DepRun, d: Dep, n: nat, schedule: seq<nat>)
    requires Valid(r) && d.id !in r.ran && n > 0 && IsSchedule(schedule, n) && d.body.Err?
    ensures Parallel(r, Repeat(d, n), schedule).err == Err(Joined(Repeat(Running(d.id, d.body.error), n)))
  {
    var deps := Repeat(d, n);
    var p := Parallel(r, deps, schedule);
    var e := Running(d.id, d.body.error);
    ExpectedRepeat(r, d, n, n);
    assert p.err.Err? by {
      RepeatOwner(r, d, n);
    }
    SameAsRepeat(p.err.error.errs, e, n);
  }

  /** A repeated succeeding dependency makes `Parallel` report nil. */
  lemma ParallelDuplicatesSucceed(r: DepRun, d: Dep, n: nat, schedule: seq<nat>)
    requires Valid(r) && d.id !in r.ran && IsSchedule(schedule, n) && d.body.Nil?
    ensures Parallel(r, Repeat(d, n), schedule).err == Nil
  {
    RepeatOwner(r, d, n);
  }

  /** Empty lists: `Serial` and `Parallel` with no dependencies report nil
      and leave the table as it was. */
  lemma EmptyLists(r: DepRun)
    requires Valid(r)
    ensures Serial(r, []) == Step(r, Nil)
    ensures Parallel(r, [], []) == Step(r, Nil)
  {
    var s := Serial(r, []);
    var p := Parallel(r, [], []);
    assert IdsUpTo([], Reached(r, [], 0)) == {};
    assert Ids([]) == {};
    SerialExecutes(r, []);
    ParallelExecutes(r, [], []);
    NoNewRun(r, s.run);
    NoNewRun(r, p.run);
    assert s.run.ran == r.ran;
    assert p.run.ran == r.ran;
  }

  /** Reset isolation: after `Reset` every identifier is unseen again, so a
      dependency executed before executes again, with its own body, whatever
      the table held. */
  lemma ResetIsolation(r: DepRun, d: Dep)
    requires Valid(r)
    ensures Serial(Reset(r), [d]).run.runs == [d.id]
    ensures Serial(Reset(r), [d]).run.ran == map[d.id := Once(d, Done(d.body))]
    ensures Serial(Reset(r), [d]).err == Reported(d.id, d.body)
  {
    assert Reset(r) == NewDependencyRun();
    assert Repeat(d, 1) == [d];
    SerialDuplicatesRunOnce(NewDependencyRun(), d, 1);
    FirstRequestTable(d);
  }

  /** On a new table, requesting `d` leaves exactly `d`'s finished wrapper. */
  lemma FirstRequestTable(d: Dep)
    ensures Serial(NewDependencyRun(), [d]).run.ran == map[d.id := Once(d, Done(d.body))]
  {
    var e := NewDependencyRun();
    RepeatOwner(e, d, 1);
    assert Repeat(d, 1) == [d];
    RepeatIds(d, 1, Reached(e, [d], 0));
  }

  /** Everything before a `Reset` is forgotten: the calls after it behave as on
      a new dependency run. */
  lemma ResetForgetsHistory(r: DepRun, before: seq<Call>, after: seq<Call>)
    requires Valid(r) && AllWellScheduled(before) && AllWellScheduled(after)
    ensures AllWellScheduled(before + [ResetCall] + after)
    ensures Apply(r, before + [ResetCall] + after) == Apply(NewDependencyRun(), after)
  {
    assert AllWellScheduled([ResetCall]);
    ApplyAppend(r, before, [ResetCall]);
    ApplyAppend(r, before + [ResetCall], after);
    var m := Apply(r, before);
    assert [ResetCall][..0] == [];
    assert Apply(m, [ResetCall]) == Perform(m, ResetCall).run;
    assert Apply(m, [ResetCall]) == NewDependencyRun();
  }

  /** Two tables that both hold the listed identifiers' entries alike and
      agree with `r` elsewhere are the same table. */
  lemma SameEntries(r: DepRun, deps: seq<Dep>, m1: map<string, Once>, m2: map<string, Once>)
    requires m1.Keys == r.ran.Keys + Ids(deps) && m2.Keys == m1.Keys
    requires forall id :: id in r.ran && id !in Ids(deps) ==> m1[id] == r.ran[id] && m2[id] == r.ran[id]
    requires forall i :: 0 <= i < |deps| ==> m1[deps[i].id] == m2[deps[i].id]
    ensures m1 == m2
  {
    forall id | id in m1
      ensures m1[id] == m2[id]
    {
      if id in Ids(deps) {
        var i :| 0 <= i < |deps| && deps[i].id == id;
      }
    }
  }

  /** The outcome of `Parallel` does not depend on the order the goroutines
      run in: the same table, and the same failures up to order. */
  lemma ParallelScheduleIndependent(r: DepRun, deps: seq<Dep>, s1: seq<nat>, s2: seq<nat>)
    requires Valid(r) && IsSchedule(s1, |deps|) && IsSchedule(s2, |deps|)
    ensures Parallel(r, deps, s1).run.ran == Parallel(r, deps, s2).run.ran
    ensures Parallel(r, deps, s1).err.Nil? <==> Parallel(r, deps, s2).err.Nil?
    ensures Parallel(r, deps, s1).err.Err? ==>
      multiset(Parallel(r, deps, s1).err.error.errs) == multiset(Parallel(r, deps, s2).err.error.errs)
    ensures multiset(Parallel(r, deps, s1).run.runs) == multiset(Parallel(r, deps, s2).run.runs)
  {
    var p1, p2 := Parallel(r, deps, s1), Parallel(r, deps, s2);
    SameEntries(r, deps, p1.run.ran, p2.run.ran);
    SameLogContents(r, deps, s1, s2);
  }

  /** The two schedules' logs hold the same executions, possibly reordered. */
  lemma SameLogContents(r: DepRun, deps: seq<Dep>, s1: seq<nat>, s2: seq<nat>)
    requires Valid(r) && IsSchedule(s1, |deps|) && IsSchedule(s2, |deps|)
    ensures multiset(Parallel(r, deps, s1).run.runs) == multiset(Parallel(r, deps, s2).run.runs)
  {
    var p1, p2 := Parallel(r, deps, s1).run, Parallel(r, deps, s2).run;
    ParallelExecutes(r, deps, s1);
    ParallelExecutes(r, deps, s2);
    var n1, n2 := NewRuns(r, p1), NewRuns(r, p2);
    assert forall x :: x in n1 <==> x in n2 by {
      forall x
        ensures x in n1 <==> x in n2
      {
        assert x in n1 <==> x in Ids(deps) && !Cached(r, x);
        assert x in n2 <==> x in Ids(deps) && !Cached(r, x);
      }
    }
    SameNewRuns(r, p1, p2);
  }

  /** Two continuations of one log whose new parts hold the same identifiers,
      each once, hold the same executions. */
  lemma SameNewRuns(r: DepRun, a: DepRun, b: DepRun)
    requires r.runs <= a.runs && r.runs <= b.runs
    requires Distinct(NewRuns(r, a)) && Distinct(NewRuns(r, b))
    requires forall x :: x in NewRuns(r, a) <==> x in NewRuns(r, b)
    ensures multiset(a.runs) == multiset(b.runs)
  {
    DistinctSameElements(NewRuns(r, a), NewRuns(r, b));
    assert a.runs == r.runs + NewRuns(r, a);
    assert b.runs == r.runs + NewRuns(r, b);
  }

  /** Two logs without repetitions naming the same identifiers hold them
      equally often, whatever their order. */
  lemma DistinctSameElements(a: seq<string>, b: seq<string>)
    requires Distinct(a) && Distinct(b)
    requires forall x :: x in a <==> x in b
    ensures multiset(a) == multiset(b)
  {
    forall x
      ensures multiset(a)[x] == multiset(b)[x]
    {
      DistinctCount(a, x);
      DistinctCount(b, x);
    }
  }

  /** In a log without repetitions every identifier occurs at most once. */
  lemma {:induction false} DistinctCount(s: seq<string>, x: string)
    requires Distinct(s)
    ensures multiset(s)[x] == if x in s then 1 else 0
    decreases |s|
  {
    if |s| > 0 {
      var front := s[..|s| - 1];
      assert s == front + [s[|s| - 1]];
      assert Distinct(front) by {
        forall i, j | 0 <= i < j < |front|
          ensures front[i] != front[j]
        {
          assert front[i] == s[i] && front[j] == s[j];
        }
      }
      DistinctCount(front, x);
      if x == s[|s| - 1] {
        forall k | 0 <= k < |front|
          ensures front[k] != x
        {
          assert front[k] == s[k];
        }
      }
    }
  }

  /** Every failing position's wrapped failure is among the errors `Parallel`
      joins. */
  lemma ParallelListsFailure(r: DepRun, deps: seq<Dep>, schedule: seq<nat>, i: nat)
    requires Valid(r) && IsSchedule(schedule, |deps|)
    requires i < |deps| && Verdict(r, deps, i).Err?
    ensures Parallel(r, deps, schedule).err.Err?
    ensures Parallel(r, deps, schedule).err.error.Joined?
    ensures Running(deps[i].id, Verdict(r, deps, i).error) in Parallel(r, deps, schedule).err.error.errs
  {
    var p := Parallel(r, deps, schedule);
    var e := Running(deps[i].id, Verdict(r, deps, i).error);
    ExpectedHas(r, deps, |deps|, i);
    assert e in multiset(Expected(r, deps, |deps|));
    assert e in multiset(p.err.error.errs);
  }

  /** Conversely, every joined error is the wrapped failure of a failing
      position: a dependency that succeeds contributes nothing. */
  lemma ParallelListsOnlyFailures(r: DepRun, deps: seq<Dep>, schedule: seq<nat>)
    requires Valid(r) && IsSchedule(schedule, |deps|)
    ensures Parallel(r, deps, schedule).err.Err? ==>
      forall e :: e in Parallel(r, deps, schedule).err.error.errs ==>
        exists i :: 0 <= i < |deps| && Verdict(r, deps, i).Err? && e == Running(deps[i].id, Verdict(r, deps, i).error)
  {
    var p := Parallel(r, deps, schedule);
    if p.err.Err? {
      forall e | e in p.err.error.errs
        ensures exists i :: 0 <= i < |deps| && Verdict(r, deps, i).Err? && e == Running(deps[i].id, Verdict(r, deps, i).error)
      {
        assert e in multiset(p.err.error.errs);
        assert e in multiset(Expected(r, deps, |deps|));
        ExpectedFrom(r, deps, |deps|, e);
      }
    }
  }

  /** Every failing position's failure can be found in the error `Parallel`
      returns, as `errors.Is` finds it: both the body's own error, which a
      caller holds, and its `running <id>` wrapper. */
  lemma ParallelRevealsFailures(r: DepRun, deps: seq<Dep>, schedule: seq<nat>, i: nat)
    requires Valid(r) && IsSchedule(schedule, |deps|)
    requires i < |deps| && Verdict(r, deps, i).Err?
    ensures Parallel(r, deps, schedule).err.Err?
    ensures Is(Parallel(r, deps, schedule).err.error, Running(deps[i].id, Verdict(r, deps, i).error))
    ensures Is(Parallel(r, deps, schedule).err.error, Verdict(r, deps, i).error)
  {
    ParallelListsFailure(r, deps, schedule, i);
    var joined := Parallel(r, deps, schedule).err.error;
    var cause := Verdict(r, deps, i).error;
    var e := Running(deps[i].id, cause);
    var k :| 0 <= k < |joined.errs| && joined.errs[k] == e;
    JoinedIs(joined.errs, k, e);
    assert Is(cause, cause);
    RunningIs(deps[i].id, cause, cause);
    JoinedIs(joined.errs, k, cause);
  }

  /** The error `Serial` returns is the first failing body's own error behind
      its `running <id>` wrapper: `errors.Is` finds it, and the text is that
      error's text after the `running <id>: ` prefix. */
  lemma SerialRevealsFailure(r: DepRun, deps: seq<Dep>)
    requires Valid(r)
    ensures var k := FirstFailure(r, deps, 0);
      k < |deps| ==>
        && Serial(r, deps).err.Err?
        && Is(Serial(r, deps).err.error, Verdict(r, deps, k).error)
        && Message(Serial(r, deps).err.error) == "running " + deps[k].id + ": " + Message(Verdict(r, deps, k).error)
  {
    var k := FirstFailure(r, deps, 0);
    if k < |deps| {
      var cause := Verdict(r, deps, k).error;
      assert Serial(r, deps).err == Err(Running(deps[k].id, cause));
      assert Is(cause, cause);
      RunningIs(deps[k].id, cause, cause);
    }
  }
}
