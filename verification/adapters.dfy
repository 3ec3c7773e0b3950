/** `Fn`, `Fn1` … `Fn6`: turning a Go function and up to six bound arguments
    into a dependency. The seven adapters differ only in how many arguments
    they bind, so one adapter over the argument list stands for all of them. */
module Adapters {

  import opened Errors
  import opened Strings
  import opened Identity
  import opened Store
  import opened Orchestrator
  import opened Calls

  /** The four shapes every adapter accepts: with or without a leading
      `context.Context` parameter, with or without an `error` result. The
      context is only passed through to the function, so `takesContext` is
      deliberately never read: the two context shapes give the same adapter. */
  datatype Shape = Shape(takesContext: bool, returnsError: bool)

  /** A function handed to an adapter: the name the Go runtime reports for it,
      its shape, and what it returns when called. A shape without an `error`
      result returns nothing, so `result` only matters for the other shapes. */
  datatype Func = Func(runtimeName: string, shape: Shape, result: Outcome)

  /** `Fn6` binds the most arguments. */
  const MaxArity := 6

  /** The adapter for `|args|` bound arguments, given as their renderings:
      the identity is the function's name followed by the renderings, and
      running the dependency calls the function with them. Shapes without an
      `error` result always succeed; the others report exactly the function's
      error. */
  function Fn(f: Func, args: seq<string>): (d: Dep)
    requires |args| <= MaxArity
    ensures d.id == Name(f.runtimeName) + "(" + Strings.Join(args, ArgSeparator) + ")"
    ensures d.body.Nil? <==> !f.shape.returnsError || f.result.Nil?
    ensures d.body.Err? ==> d.body == f.result
  {
    var body := if f.shape.returnsError then f.result else Nil;
    Dep(FuncID(f.runtimeName, args), body)
  }

  /** The same function bound to arguments with different separable
      renderings yields dependencies with different identities, so both run. */
  lemma DistinctArgumentsDistinctIDs(f: Func, args1: seq<string>, args2: seq<string>)
    requires |args1| <= MaxArity && |args2| <= MaxArity
    requires forall i :: 0 <= i < |args1| ==> Separable(args1[i])
    requires forall i :: 0 <= i < |args2| ==> Separable(args2[i])
    requires args1 != args2
    ensures Fn(f, args1).id != Fn(f, args2).id
  {
    if Fn(f, args1).id == Fn(f, args2).id {
      FuncIDInjective(f.runtimeName, f.runtimeName, args1, args2);
      assert false;
    }
  }

  /** Two functions whose identities coincide — two method values `a.Build`
      and `b.Build` of one method, which the runtime names alike — adapted with
      the same arguments: only the first listed runs, its wrapper is the one
      registered and its outcome the one reported, whatever the second would
      have returned. With `f1 == f2` this is one call adapted twice, say by two
      callers: its body runs once per table. */
  lemma SharedIdentityFirstWins(r: DepRun, f1: Func, f2: Func, args: seq<string>)
    requires Valid(r) && |args| <= MaxArity
    requires Name(f1.runtimeName) == Name(f2.runtimeName)
    requires Fn(f1, args).id !in r.ran
    ensures Fn(f1, args).id == Fn(f2, args).id
    ensures Serial(r, [Fn(f1, args), Fn(f2, args)]).run.runs == r.runs + [Fn(f1, args).id]
    ensures Serial(r, [Fn(f1, args), Fn(f2, args)]).err == Reported(Fn(f1, args).id, Fn(f1, args).body)
    ensures Serial(r, [Fn(f1, args), Fn(f2, args)]).run.ran[Fn(f1, args).id] == Once(Fn(f1, args), Done(Fn(f1, args).body))
  {
    FirstRegisteredWins(r, Fn(f1, args), Fn(f2, args));
  }
}
