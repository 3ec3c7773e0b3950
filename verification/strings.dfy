/** The pieces of Go's `strings` package that identity strings are built from. */
module Strings {

  /** `strings.HasSuffix`. */
  predicate HasSuffix(s: string, suffix: string)
  {
    |suffix| <= |s| && s[|s| - |suffix|..] == suffix
  }

  /** `strings.TrimSuffix`: drops one trailing `suffix` if `s` ends with it. */
  function TrimSuffix(s: string, suffix: string): (r: string)
    ensures HasSuffix(s, suffix) ==> r + suffix == s
    ensures !HasSuffix(s, suffix) ==> r == s
  {
    if HasSuffix(s, suffix) then s[..|s| - |suffix|] else s
  }

  /** Trimming undoes appending the suffix, and only one copy is removed. */
  lemma TrimSuffixAppended(s: string, suffix: string)
    ensures TrimSuffix(s + suffix, suffix) == s
  {
    assert (s + suffix)[|s|..] == suffix;
  }

  /** The summed length of the parts. */
  function TotalLength(parts: seq<string>): nat
  {
    if |parts| == 0 then 0 else |parts[0]| + TotalLength(parts[1..])
  }

  /** `strings.Join`: the parts in order, with `sep` between neighbours. */
  function Join(parts: seq<string>, sep: string): (r: string)
    ensures |parts| == 1 ==> r == parts[0]
    ensures |r| == TotalLength(parts) + (if |parts| == 0 then 0 else (|parts| - 1) * |sep|)
    ensures |parts| > 1 ==> r[..|parts[0]|] == parts[0] && r[|parts[0]|..|parts[0]| + |sep|] == sep
  {
    if |parts| == 0 then ""
    else if |parts| == 1 then parts[0]
    else parts[0] + sep + Join(parts[1..], sep)
  }

  /** No character of `s` is `c`. */
  predicate Avoids(s: string, c: char)
  {
    forall i :: 0 <= i < |s| ==> s[i] != c
  }

  /** `x` is shorter than `y`, both avoid `c`, so `x + [c] + _` and `y + _` differ at `|x|`. */
  lemma PrefixesAgree(x: string, y: string, c: char, rx: string, ry: string)
    requires Avoids(x, c) && Avoids(y, c)
    requires x + [c] + rx == y + [c] + ry
    ensures x == y && rx == ry
  {
    var X := x + [c] + rx;
    var Y := y + [c] + ry;
    assert X[|x|] == c && forall i :: 0 <= i < |x| ==> X[i] != c;
    assert Y[|y|] == c && forall i :: 0 <= i < |y| ==> Y[i] != c;
    assert x == X[..|x|] == Y[..|y|] == y;
    assert rx == X[|x| + 1..] == Y[|y| + 1..] == ry;
  }

  /** A single part avoiding the separator's first character is never the
      join of two or more parts. */
  lemma JoinedDiffersFromSingle(x: string, parts: seq<string>, sep: string)
    requires |sep| > 0 && |parts| > 1 && Avoids(x, sep[0])
    ensures x != Join(parts, sep)
  {
    var j := Join(parts, sep);
    assert j[|parts[0]|] == sep[0];
  }

  /** Joining is injective on non-empty lists whose parts never contain the
      separator's first character. */
  lemma {:induction false} JoinInjective(a: seq<string>, b: seq<string>, sep: string)
    requires |sep| > 0 && |a| > 0 && |b| > 0
    requires forall i :: 0 <= i < |a| ==> Avoids(a[i], sep[0])
    requires forall i :: 0 <= i < |b| ==> Avoids(b[i], sep[0])
    requires Join(a, sep) == Join(b, sep)
    ensures a == b
    decreases |a|
  {
    if |a| == 1 && |b| == 1 {
      assert a == [a[0]] && b == [b[0]];
    } else if |a| == 1 {
      JoinedDiffersFromSingle(a[0], b, sep);
      assert false;
    } else if |b| == 1 {
      JoinedDiffersFromSingle(b[0], a, sep);
      assert false;
    } else {
      JoinHeadsAgree(a, b, sep);
      JoinInjective(a[1..], b[1..], sep);
      assert a == [a[0]] + a[1..] && b == [b[0]] + b[1..];
    }
  }

  /** Equal joins of two or more parts each have the same first part and the
      same join of the rest. */
  lemma JoinHeadsAgree(a: seq<string>, b: seq<string>, sep: string)
    requires |sep| > 0 && |a| > 1 && |b| > 1
    requires Avoids(a[0], sep[0]) && Avoids(b[0], sep[0])
    requires Join(a, sep) == Join(b, sep)
    ensures a[0] == b[0] && Join(a[1..], sep) == Join(b[1..], sep)
  {
    var ja, jb := Join(a[1..], sep), Join(b[1..], sep);
    assert Join(a, sep) == a[0] + sep + ja;
    assert Join(b, sep) == b[0] + sep + jb;
    SplitAtSeparator(a[0], sep, ja);
    SplitAtSeparator(b[0], sep, jb);
    PrefixesAgree(a[0], b[0], sep[0], sep[1..] + ja, sep[1..] + jb);
    assert ja == (sep[1..] + ja)[|sep| - 1..];
    assert jb == (sep[1..] + jb)[|sep| - 1..];
  }

  lemma SplitAtSeparator(x: string, sep: string, rest: string)
    requires |sep| > 0
    ensures x + sep + rest == x + [sep[0]] + (sep[1..] + rest)
  {
    assert sep == [sep[0]] + sep[1..];
  }
}
