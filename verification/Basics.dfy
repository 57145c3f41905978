/** Types and sequence facts shared by every component. */
module Basics {

  /** A Rust `u8`. */
  type byte = x: int | 0 <= x < 256

  /** A Rust `u32`. */
  type dword = x: int | 0 <= x < 0x1_0000_0000

  datatype Option<+T> = None | Some(value: T)

  datatype Result<+T, +E> = Ok(value: T) | Err(error: E)

  /** The concatenation of a sequence of sequences. */
  function Flatten<T>(ss: seq<seq<T>>): (r: seq<T>) {
    if ss == [] then [] else ss[0] + Flatten(ss[1..])
  }

  lemma FlattenAppend<T>(a: seq<seq<T>>, b: seq<seq<T>>)
    ensures Flatten(a + b) == Flatten(a) + Flatten(b)
  {
    if a == [] {
      assert a + b == b;
    } else {
      assert (a + b)[1..] == a[1..] + b;
      FlattenAppend(a[1..], b);
    }
  }

  function Map<T, U>(f: T -> U, s: seq<T>): (r: seq<U>)
    ensures |r| == |s|
    ensures forall i | 0 <= i < |s| :: r[i] == f(s[i])
  {
    if s == [] then [] else [f(s[0])] + Map(f, s[1..])
  }

  /** The image of `s` under a function that may refuse: nothing at all if it refuses any member. */
  function All<T, U>(f: T -> Option<U>, s: seq<T>): (r: Option<seq<U>>)
    ensures r.Some? ==> |r.value| == |s| && forall i | 0 <= i < |s| :: f(s[i]) == Some(r.value[i])
    ensures r.None? ==> exists i :: 0 <= i < |s| && f(s[i]).None?
  {
    if s == [] then Some([])
    else match f(s[0])
      case None => None
      case Some(first) => match All(f, s[1..]) case None => None case Some(others) => Some([first] + others)
  }

  lemma {:induction false} AllIs<T, U>(f: T -> Option<U>, s: seq<T>, r: seq<U>)
    requires |r| == |s| && forall i | 0 <= i < |s| :: f(s[i]) == Some(r[i])
    ensures All(f, s) == Some(r)
  {
    hide All;
    if All(f, s).Some? {
      assert forall i | 0 <= i < |s| :: f(s[i]) == Some(All(f, s).value[i]);
      assert All(f, s).value == r;
    }
  }

  /** `All` depends only on what the function makes of each member. */
  lemma {:induction false} AllCongruent<T, U>(f: T -> Option<U>, a: seq<T>, b: seq<T>)
    requires |a| == |b| && forall i | 0 <= i < |a| :: f(a[i]) == f(b[i])
    ensures All(f, a) == All(f, b)
  {
    hide All;
    if All(f, a).Some? {
      AllIs(f, b, All(f, a).value);
    }
  }

  lemma RemoveOne<T>(s: seq<T>, j: nat)
    requires j < |s|
    ensures multiset(s[..j] + s[j + 1..]) == multiset(s) - multiset{s[j]}
  {
    assert s == s[..j] + [s[j]] + s[j + 1..];
  }

  lemma {:induction false} MapWithout<T, U>(f: T -> U, s: seq<T>, j: nat)
    requires j < |s|
    ensures multiset(Map(f, s)) == multiset(Map(f, s[..j] + s[j + 1..])) + multiset{f(s[j])}
  {
    hide Map;
    RemoveOne(Map(f, s), j);
    assert Map(f, s)[j] == f(s[j]);
    assert Map(f, s)[..j] + Map(f, s)[j + 1..] == Map(f, s[..j] + s[j + 1..]);
  }

  lemma FindHead<T>(a: seq<T>, b: seq<T>) returns (j: nat)
    requires Permutation(a, b) && a != []
    ensures j < |b| && b[j] == a[0] && Permutation(a[1..], b[..j] + b[j + 1..])
  {
    PermutationMembers(a, b);
    assert a[0] in b;
    j :| 0 <= j < |b| && b[j] == a[0];
    RemoveOne(a, 0);
    RemoveOne(b, j);
    assert a[..0] + a[1..] == a[1..];
  }

  lemma {:induction false} MapPermutesStep<T, U>(f: T -> U, a: seq<T>, b: seq<T>, j: nat)
    requires a != [] && j < |b| && b[j] == a[0] && Permutation(Map(f, a[1..]), Map(f, b[..j] + b[j + 1..]))
    ensures Permutation(Map(f, a), Map(f, b))
  {
    hide Map;
    MapWithout(f, a, 0);
    MapWithout(f, b, j);
    assert a[..0] + a[1..] == a[1..];
  }

  lemma {:induction false} MapPermutes<T, U>(f: T -> U, a: seq<T>, b: seq<T>)
    requires Permutation(a, b)
    ensures Permutation(Map(f, a), Map(f, b))
  {
    hide *;
    if a == [] {
      PermutationMembers(a, b);
      assert b == a;
      SamePermutes(Map(f, a));
    } else {
      var j := FindHead(a, b);
      MapPermutes(f, a[1..], b[..j] + b[j + 1..]);
      MapPermutesStep(f, a, b, j);
    }
  }

  /** Two sequences hold the same elements, with the same multiplicities. */
  ghost predicate Permutation<T>(a: seq<T>, b: seq<T>) {
    multiset(a) == multiset(b)
  }

  lemma SamePermutes<T>(s: seq<T>)
    ensures Permutation(s, s)
  {}

  lemma PermutationMembers<T>(a: seq<T>, b: seq<T>)
    requires Permutation(a, b)
    ensures |a| == |b|
    ensures forall x :: x in a <==> x in b
  {
    assert |multiset(a)| == |a| && |multiset(b)| == |b|;
    forall x ensures x in a <==> x in b {
      assert x in a <==> x in multiset(a);
      assert x in b <==> x in multiset(b);
    }
  }
}
