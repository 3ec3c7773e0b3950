/** Go error values as the dependency engine builds and inspects them. */
module Errors {

  import Strings

  /** An error value. `Failure` is an error a dependency body returns; Go
      compares such errors (`errors.New`, a `*MyError`) by pointer, so it
      carries an identity besides its text, and two failures with the same text
      but different identities are different errors. `Running` is the wrapper
      `fmt.Errorf("running %s: %w", id, cause)` builds; `Joined` is what
      `errors.Join` builds from a non-empty list of errors. */
  datatype Error =
    | Failure(identity: nat, msg: string)
    | Running(id: string, cause: Error)
    | Joined(errs: seq<Error>)

  /** A Go `error` result: `Nil` is success. */
  datatype Outcome = Nil | Err(error: Error)

  /** The errors `e` wraps directly: what `Unwrap() error` or `Unwrap() []error` yields. */
  function Unwrap(e: Error): (r: seq<Error>)
    ensures forall i :: 0 <= i < |r| ==> r[i] < e
  {
    match e
    case Failure(_, _) => []
    case Running(_, cause) => [cause]
    case Joined(errs) => errs
  }

  /** `errors.Is`: `target` occurs in the tree of errors `e` wraps, `e` included. */
  predicate Is(e: Error, target: Error)
    ensures Is(e, target) ==> target == e || target < e
    decreases e
  {
    e == target || exists i :: 0 <= i < |Unwrap(e)| && Is(Unwrap(e)[i], target)
  }

  /** `errors.Join` applied to errors none of which is nil. */
  function Join(errs: seq<Error>): (r: Outcome)
    ensures r.Nil? <==> |errs| == 0
    ensures r.Err? ==> Unwrap(r.error) == errs
    ensures r.Err? ==> forall i :: 0 <= i < |errs| ==> Is(r.error, errs[i])
  {
    if |errs| == 0 then Nil
    else
      var e := Joined(errs);
      assert forall i :: 0 <= i < |errs| ==> Is(errs[i], errs[i]);
      Err(e)
  }

  /** The text `Error()` returns: the wrapper prefixes `running <id>: ` to its
      cause's text, a joined error puts one error's text per line. */
  function Message(e: Error): (m: string)
    ensures e.Running? ==> |Message(e.cause)| <= |m| && m[|m| - |Message(e.cause)|..] == Message(e.cause)
    ensures e.Joined? && |e.errs| == 1 ==> m == Message(e.errs[0])
    ensures e.Joined? && |e.errs| > 1 ==> |Message(e.errs[0])| < |m| && m[..|Message(e.errs[0])| + 1] == Message(e.errs[0]) + "\n"
    decreases e
  {
    match e
    case Failure(_, msg) => msg
    case Running(id, cause) => "running " + id + ": " + Message(cause)
    case Joined(errs) => Strings.Join(seq(|errs|, i requires 0 <= i < |errs| => Message(errs[i])), "\n")
  }

  /** `errors.Is` sees through `errors.Join`: whatever one of the joined
      errors matches, the join matches too. */
  lemma JoinedIs(errs: seq<Error>, k: nat, target: Error)
    requires k < |errs| && Is(errs[k], target)
    ensures Is(Joined(errs), target)
  {
    assert Unwrap(Joined(errs))[k] == errs[k];
  }

  /** `errors.Is` sees through the `%w` of a `running <id>` wrapper. */
  lemma RunningIs(id: string, cause: Error, target: Error)
    requires Is(cause, target)
    ensures Is(Running(id, cause), target)
  {
    assert Unwrap(Running(id, cause))[0] == cause;
  }
}
