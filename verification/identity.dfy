/** `funcID`: the identity string of a dependency built from a function and its
    bound arguments. The runtime name of the function and the `%#v` rendering of
    each argument are inputs here. */
module Identity {

  import opened Strings

  /** The suffix the Go runtime appends to the name of a method value. */
  const MethodValueSuffix := "-fm"

  /** What separates two argument renderings inside the parentheses. */
  const ArgSeparator := ", "

  /** The function's name as it appears in identities: the runtime name without a
      trailing method-value suffix. */
  function Name(runtimeName: string): (name: string)
    ensures HasSuffix(runtimeName, MethodValueSuffix) ==> name + MethodValueSuffix == runtimeName
    ensures !HasSuffix(runtimeName, MethodValueSuffix) ==> name == runtimeName
  {
    TrimSuffix(runtimeName, MethodValueSuffix)
  }

  /** The identity of a function with the given runtime name and argument
      renderings. Both the no-argument and the argument case produce the name
      followed by the comma-joined renderings in parentheses. */
  function FuncID(runtimeName: string, args: seq<string>): (id: string)
    ensures id == Name(runtimeName) + "(" + Join(args, ArgSeparator) + ")"
    ensures |id| == |Name(runtimeName)| + 2 + TotalLength(args) + (if |args| == 0 then 0 else (|args| - 1) * |ArgSeparator|)
  {
    var name := TrimSuffix(runtimeName, MethodValueSuffix);
    if |args| > 0 then name + "(" + Join(args, ArgSeparator) + ")"
    else name + "()"
  }

  /** A rendering that can be told apart inside an identity: non-empty and free
      of the separator's comma. */
  predicate Separable(rendering: string)
  {
    |rendering| > 0 && Avoids(rendering, ArgSeparator[0])
  }

  /** For one function name, separable renderings are recovered from the
      identity: equal identities mean equal argument lists. */
  lemma FuncIDInjective(name1: string, name2: string, args1: seq<string>, args2: seq<string>)
    requires Name(name1) == Name(name2)
    requires forall i :: 0 <= i < |args1| ==> Separable(args1[i])
    requires forall i :: 0 <= i < |args2| ==> Separable(args2[i])
    requires FuncID(name1, args1) == FuncID(name2, args2)
    ensures args1 == args2
  {
    var n := |Name(name1)|;
    var id := FuncID(name1, args1);
    var j1 := Join(args1, ArgSeparator);
    var j2 := Join(args2, ArgSeparator);
    assert j1 == id[n + 1..|id| - 1];
    assert j2 == id[n + 1..|id| - 1];
    assert |args1| > 0 ==> |args1[0]| > 0;
    assert |args2| > 0 ==> |args2[0]| > 0;
    if |args1| > 0 && |args2| > 0 {
      JoinInjective(args1, args2, ArgSeparator);
    }
  }

  /** A method value and the plain function of the same name share an
      identity, and only one trailing suffix is ever removed. */
  lemma MethodValueSharesID(name: string, args: seq<string>)
    ensures FuncID(name + MethodValueSuffix, args) == name + "(" + Join(args, ArgSeparator) + ")"
    ensures !HasSuffix(name, MethodValueSuffix) ==> FuncID(name + MethodValueSuffix, args) == FuncID(name, args)
  {
    TrimSuffixAppended(name, MethodValueSuffix);
  }

  /** Renderings that are not separable can collide: one argument rendered as
      `a, b` reads like two, and an empty rendering reads like none. */
  lemma NonSeparableCollide()
    ensures FuncID("pkg.Build", ["a, b"]) == FuncID("pkg.Build", ["a", "b"])
    ensures FuncID("pkg.Build", [""]) == FuncID("pkg.Build", [])
  {
    assert !HasSuffix("pkg.Build", MethodValueSuffix) by {
      assert "pkg.Build"[6..] != MethodValueSuffix;
    }
  }
}
