/** The generator's two fixpoints: structures in an order C accepts, and the functions the generated code can reach. */
module Layout {
  import opened Basics

  // ---------------------------------------------------------------- layouts

  /** A structure, with the type of each field. */
  datatype Struct = Struct(name: string, fields: seq<string>)

  const PRIMITIVES: set<string> := {"u8", "u16", "u32", "u64", "i32", "i64", "usize", "f64"}

  /** A pointer or a number: nothing has to be defined first. */
  predicate Simple(t: string) {
    (t != [] && t[0] == '*') || t in PRIMITIVES
  }

  /** Pointers are written with a star before them, and the numbers are these. */
  lemma SimpleIs(t: string)
    ensures Simple(t) <==> (exists target :: t == "*" + target)
                           || t in {"u8", "u16", "u32", "u64", "i32", "i64", "usize", "f64"}
  {
    if t != [] && t[0] == '*' {
      assert t == "*" + t[1..];
    }
  }

  predicate Names(structs: seq<Struct>, t: string) {
    exists l :: l in structs && l.name == t
  }

  predicate Ready(l: Struct, ordered: seq<Struct>) {
    forall t | t in l.fields :: Simple(t) || Names(ordered, t)
  }

  /** Each structure comes after every structure it contains by value. */
  ghost predicate InOrder(ordered: seq<Struct>) {
    forall i | 0 <= i < |ordered| :: Ready(ordered[i], ordered[..i])
  }

  ghost predicate Closed(structs: seq<Struct>) {
    forall l, t | l in structs && t in l.fields :: Simple(t) || Names(structs, t)
  }

  /** Structure `a` contains `b` by value. */
  ghost predicate Contains(structs: seq<Struct>, a: string, b: string) {
    !Simple(b) && exists l :: l in structs && l.name == a && b in l.fields
  }

  ghost predicate IsPath(structs: seq<Struct>, path: seq<string>) {
    forall i | 0 <= i < |path| - 1 :: Contains(structs, path[i], path[i + 1])
  }

  ghost predicate IsCycle(structs: seq<Struct>, path: seq<string>) {
    |path| >= 2 && path[0] == path[|path| - 1] && IsPath(structs, path)
  }

  /** Some structure contains itself, through any number of others. */
  ghost predicate Cyclic(structs: seq<Struct>) {
    exists path: seq<string> :: IsCycle(structs, path)
  }

  ghost predicate DistinctNames(structs: seq<Struct>) {
    forall i, j | 0 <= i < j < |structs| :: structs[i].name != structs[j].name
  }

  ghost predicate Stuck(pending: seq<Struct>, ordered: seq<Struct>) {
    pending != [] && forall l | l in pending :: !Ready(l, ordered)
  }

  // ---------------------------------------------------------------- why a pass gets stuck

  /** From any structure left over, a way on to another, as far as one likes. */
  lemma {:induction false} LongPath(all: seq<Struct>, pending: seq<Struct>, ordered: seq<Struct>, n: nat)
    returns (path: seq<string>)
    requires Stuck(pending, ordered) && Closed(all)
    requires forall l :: l in all <==> l in pending || l in ordered
    ensures |path| == n + 1 && IsPath(all, path) && forall t | t in path :: Names(pending, t)
  {
    if n == 0 {
      path := [pending[0].name];
    } else {
      var front := LongPath(all, pending, ordered, n - 1);
      var last := front[|front| - 1];
      assert Names(pending, last);
      var l :| l in pending && l.name == last;
      assert !Ready(l, ordered);
      var t :| t in l.fields && !Simple(t) && !Names(ordered, t);
      assert Names(all, t);
      assert Names(pending, t);
      assert Contains(all, last, t);
      path := front + [t];
      forall i | 0 <= i < |path| - 1 ensures Contains(all, path[i], path[i + 1]) {
        if i < |front| - 1 {
          assert Contains(all, front[i], front[i + 1]);
        }
      }
    }
  }

  function NamesOf(structs: seq<Struct>): seq<string> {
    Map((l: Struct) => l.name, structs)
  }

  lemma {:induction false} DistinctCount(s: seq<string>)
    requires forall i, j | 0 <= i < j < |s| :: s[i] != s[j]
    ensures |set x | x in s| == |s|
  {
    if s != [] {
      DistinctCount(s[1..]);
      assert (set x | x in s) == {s[0]} + (set x | x in s[1..]);
    }
  }

  lemma {:induction false} MemberCount(s: seq<string>)
    ensures |set x | x in s| <= |s|
  {
    if s != [] {
      MemberCount(s[1..]);
      assert (set x | x in s) == {s[0]} + (set x | x in s[1..]);
    }
  }

  lemma SubsetCount(a: set<string>, b: set<string>)
    requires a <= b
    ensures |a| <= |b|
  {
    assert b == a + (b - a);
  }

  /** More places than there are values to fill them: one comes twice. */
  lemma {:induction false} Pigeonhole(s: seq<string>, t: seq<string>) returns (i: nat, j: nat)
    requires |s| > |t| && forall x | x in s :: x in t
    ensures i < j < |s| && s[i] == s[j]
  {
    if forall i, j | 0 <= i < j < |s| :: s[i] != s[j] {
      DistinctCount(s);
      MemberCount(t);
      SubsetCount(set x | x in s, set x | x in t);
      assert false;
    }
    i, j :| 0 <= i < j < |s| && s[i] == s[j];
  }

  lemma {:induction false} RepeatIsCycle(all: seq<Struct>, path: seq<string>, i: nat, j: nat)
    requires IsPath(all, path) && i < j < |path| && path[i] == path[j]
    ensures Cyclic(all)
  {
    hide Contains;
    var cycle := path[i..j + 1];
    forall k | 0 <= k < |cycle| - 1 ensures Contains(all, cycle[k], cycle[k + 1]) {
      assert Contains(all, path[i + k], path[i + k + 1]);
    }
    assert IsCycle(all, cycle);
  }

  lemma {:induction false} NamedIn(structs: seq<Struct>, t: string)
    requires Names(structs, t)
    ensures t in NamesOf(structs)
  {
    hide Map;
    var l :| l in structs && l.name == t;
    var k :| 0 <= k < |structs| && structs[k] == l;
    assert NamesOf(structs)[k] == t;
  }

  lemma {:induction false} StuckMeans(all: seq<Struct>, pending: seq<Struct>, ordered: seq<Struct>)
    requires Stuck(pending, ordered) && forall l :: l in all <==> l in pending || l in ordered
    ensures !Closed(all) || Cyclic(all)
  {
    hide Cyclic, IsPath, Names, Closed, Map, Ready;
    if Closed(all) {
      var path := LongPath(all, pending, ordered, |pending|);
      forall t | t in path ensures t in NamesOf(pending) {
        NamedIn(pending, t);
      }
      var i, j := Pigeonhole(path, NamesOf(pending));
      RepeatIsCycle(all, path, i, j);
    }
  }

  // ---------------------------------------------------------------- why an order excludes cycles

  lemma Place(ordered: seq<Struct>, t: string) returns (k: nat)
    requires Names(ordered, t)
    ensures k < |ordered| && ordered[k].name == t
  {
    var l :| l in ordered && l.name == t;
    k :| 0 <= k < |ordered| && ordered[k] == l;
  }

  /** A path goes ever earlier. */
  lemma {:induction false} PathGoesBack(ordered: seq<Struct>, path: seq<string>, k: nat) returns (m: nat)
    requires InOrder(ordered) && DistinctNames(ordered) && IsPath(ordered, path) && path != []
    requires k < |ordered| && ordered[k].name == path[0]
    ensures m < |ordered| && ordered[m].name == path[|path| - 1]
    ensures |path| >= 2 ==> m < k
    ensures m <= k
  {
    if |path| == 1 {
      m := k;
    } else {
      assert Contains(ordered, path[0], path[1]);
      var l :| l in ordered && l.name == path[0] && path[1] in l.fields;
      var i :| 0 <= i < |ordered| && ordered[i] == l;
      assert i == k;
      assert Ready(ordered[k], ordered[..k]);
      var next := Place(ordered[..k], path[1]);
      assert ordered[next].name == path[1];
      forall i | 0 <= i < |path[1..]| - 1 ensures Contains(ordered, path[1..][i], path[1..][i + 1]) {
        assert Contains(ordered, path[i + 1], path[i + 2]);
      }
      m := PathGoesBack(ordered, path[1..], next);
    }
  }

  lemma {:induction false} OrderMeans(all: seq<Struct>, ordered: seq<Struct>)
    requires InOrder(ordered) && DistinctNames(ordered) && forall l :: l in all <==> l in ordered
    ensures Closed(all) && !Cyclic(all)
  {
    forall l, t | l in all && t in l.fields ensures Simple(t) || Names(all, t) {
      var i :| 0 <= i < |ordered| && ordered[i] == l;
      assert Ready(ordered[i], ordered[..i]);
      if !Simple(t) {
        var k := Place(ordered[..i], t);
        assert ordered[k] in all;
      }
    }
    if Cyclic(all) {
      var path: seq<string> :| IsCycle(all, path);
      forall i | 0 <= i < |path| - 1 ensures Contains(ordered, path[i], path[i + 1]) {
        assert Contains(all, path[i], path[i + 1]);
      }
      assert Contains(ordered, path[0], path[1]);
      var k := Place(ordered, path[0]);
      var m := PathGoesBack(ordered, path, k);
    }
  }

  // ---------------------------------------------------------------- the ordering pass

  ghost predicate Splits(all: seq<Struct>, pending: seq<Struct>, ordered: seq<Struct>) {
    Permutation(pending + ordered, all)
  }

  /** What a pass keeps, in its order, and what it has ordered: a structure moves if it is ready as its turn comes. */
  function Swept(pending: seq<Struct>, ordered: seq<Struct>): (seq<Struct>, seq<Struct>)
    decreases |pending|
  {
    if pending == [] then ([], ordered)
    else if Ready(pending[0], ordered) then Swept(pending[1..], ordered + [pending[0]])
    else
      var (kept, more) := Swept(pending[1..], ordered);
      ([pending[0]] + kept, more)
  }

  lemma {:induction false} SweptStep(kept: seq<Struct>, l: Struct, rest: seq<Struct>, ordered: seq<Struct>)
    ensures var before := Swept([l] + rest, ordered);
            var now := Swept(rest, if Ready(l, ordered) then ordered + [l] else ordered);
            && before.1 == now.1
            && kept + before.0 == (if Ready(l, ordered) then kept else kept + [l]) + now.0
  {
    hide Ready;
    assert ([l] + rest)[1..] == rest;
  }

  /** One pass: every structure that is ready as its turn comes is moved, and the others stay as they were. */
  method Pass(all: seq<Struct>, pending: seq<Struct>, before: seq<Struct>)
    returns (kept: seq<Struct>, ordered: seq<Struct>)
    requires Splits(all, pending, before) && InOrder(before)
    ensures (kept, ordered) == Swept(pending, before)
    ensures Splits(all, kept, ordered) && InOrder(ordered)
    ensures |kept| <= |pending|
    ensures |kept| == |pending| ==> kept == pending && ordered == before && forall l | l in pending :: !Ready(l, before)
  {
    hide Ready, InOrder, Splits, Swept;
    kept, ordered := [], before;
    assert [] + pending[0..] == pending && pending[0..] == pending;
    NothingSwept(pending, before);
    for i := 0 to |pending|
      invariant |kept| <= i
      invariant Splits(all, kept + pending[i..], ordered) && InOrder(ordered)
      invariant var now := Swept(pending[i..], ordered); Swept(pending, before) == (kept + now.0, now.1)
      invariant |kept| == i ==> kept == pending[..i] && ordered == before && forall l | l in kept :: !Ready(l, before)
    {
      assert pending[i..] == [pending[i]] + pending[i + 1..];
      SweptStep(kept, pending[i], pending[i + 1..], ordered);
      if Ready(pending[i], ordered) {
        MoveOne(all, kept, pending, i, ordered);
        ordered := ordered + [pending[i]];
      } else {
        assert kept + [pending[i]] + pending[i + 1..] == kept + pending[i..];
        kept := kept + [pending[i]];
      }
    }
    assert kept + pending[|pending|..] == kept && pending[..|pending|] == pending && pending[|pending|..] == [];
    NoneSwept(kept, ordered);
  }

  lemma NothingSwept(pending: seq<Struct>, before: seq<Struct>)
    ensures Swept(pending, before) == ([] + Swept(pending, before).0, Swept(pending, before).1)
  {
    assert [] + Swept(pending, before).0 == Swept(pending, before).0;
  }

  lemma NoneSwept(kept: seq<Struct>, ordered: seq<Struct>)
    ensures Swept([], ordered) == ([], ordered) && kept + [] == kept
  {}

  /**
    Order the structures so that each follows those it contains by value. This succeeds exactly when every field's
    type is known and no structure contains itself.
   */
  method Order(structs: seq<Struct>) returns (r: Option<seq<Struct>>)
    requires DistinctNames(structs)
    ensures r.Some? ==> Permutation(r.value, structs) && InOrder(r.value)
    ensures r.Some? <==> Closed(structs) && !Cyclic(structs)
  {
    hide Ready, InOrder, Closed, Cyclic, DistinctNames;
    var pending, ordered := structs, [];
    NoneInOrder();
    assert structs + [] == structs;
    while pending != []
      invariant Splits(structs, pending, ordered) && InOrder(ordered)
      decreases |pending|
    {
      var kept, more := Pass(structs, pending, ordered);
      if |kept| == |pending| {
        SplitMembers(structs, pending, ordered);
        StuckMeans(structs, pending, ordered);
        return None;
      }
      pending, ordered := kept, more;
    }
    assert [] + ordered == ordered;
    SplitMembers(structs, [], ordered);
    OrderedNames(structs, ordered);
    OrderMeans(structs, ordered);
    r := Some(ordered);
  }

  lemma NoneInOrder()
    ensures InOrder([])
  {}

  lemma MoveOne(all: seq<Struct>, kept: seq<Struct>, pending: seq<Struct>, i: nat, ordered: seq<Struct>)
    requires i < |pending| && Splits(all, kept + pending[i..], ordered) && InOrder(ordered) && Ready(pending[i],
        ordered)
    ensures Splits(all, kept + pending[i + 1..], ordered + [pending[i]]) && InOrder(ordered + [pending[i]])
  {
    assert pending[i..] == [pending[i]] + pending[i + 1..];
    var after := ordered + [pending[i]];
    forall k | 0 <= k < |after| ensures Ready(after[k], after[..k]) {
      assert after[..k] == ordered[..k];
      if k == |ordered| {
        assert ordered[..k] == ordered;
      }
    }
  }

  lemma SplitMembers(all: seq<Struct>, pending: seq<Struct>, ordered: seq<Struct>)
    requires Splits(all, pending, ordered)
    ensures forall l :: l in all <==> l in pending || l in ordered
  {
    PermutationMembers(pending + ordered, all);
  }

  lemma {:induction false} OrderedNames(all: seq<Struct>, ordered: seq<Struct>)
    requires DistinctNames(all) && Permutation(ordered, all)
    ensures DistinctNames(ordered)
  {
    PermutationMembers(ordered, all);
    forall i, j | 0 <= i < j < |ordered| ensures ordered[i].name != ordered[j].name {
      if ordered[i].name == ordered[j].name {
        var a, b := ordered[i], ordered[j];
        assert a in all && b in all;
        var k :| 0 <= k < |all| && all[k] == a;
        assert b == a;
        TwiceIn(ordered, i, j);
        OnceIn(all, k);
      }
    }
  }

  lemma TwiceIn(s: seq<Struct>, i: nat, j: nat)
    requires i < j < |s| && s[i] == s[j]
    ensures multiset(s)[s[i]] >= 2
  {
    assert s == s[..j] + [s[j]] + s[j + 1..];
    assert s[i] in s[..j];
  }

  lemma OnceIn(s: seq<Struct>, k: nat)
    requires DistinctNames(s) && k < |s|
    ensures multiset(s)[s[k]] == 1
  {
    assert s == s[..k] + [s[k]] + s[k + 1..];
    assert s[k] !in s[..k] && s[k] !in s[k + 1..];
  }

  // ---------------------------------------------------------------- functions kept

  /** Each function with the names its body calls. */
  type Calls = map<string, seq<string>>

  ghost predicate IsCallPath(functions: Calls, path: seq<string>) {
    forall i | 0 <= i < |path| - 1 :: path[i] in functions && path[i + 1] in functions[path[i]]
  }

  /** There is a chain of calls from a root to this name. */
  ghost predicate Reachable(functions: Calls, roots: set<string>, name: string) {
    exists path: seq<string> ::
      path != [] && path[0] in roots && path[|path| - 1] == name && IsCallPath(functions, path)
  }

  function Called(functions: Calls, names: set<string>): set<string> {
    set name, callee | name in names && name in functions && callee in functions[name] :: callee
  }

  function Mentioned(functions: Calls, roots: set<string>): set<string> {
    roots + Called(functions, functions.Keys)
  }

  lemma {:induction false} ReachableStep(functions: Calls, roots: set<string>, name: string, callee: string)
    requires Reachable(functions, roots, name) && name in functions && callee in functions[name]
    ensures Reachable(functions, roots, callee)
  {
    var path: seq<string> :| path != [] && path[0] in roots && path[|path| - 1] == name && IsCallPath(functions, path);
    var longer := path + [callee];
    assert IsCallPath(functions, longer);
    assert longer[0] in roots && longer[|longer| - 1] == callee;
  }

  lemma {:induction false} ClosedHoldsAll(functions: Calls, needed: set<string>, path: seq<string>)
    requires Called(functions, needed) <= needed && path != [] && path[0] in needed && IsCallPath(functions, path)
    ensures path[|path| - 1] in needed
  {
    if |path| > 1 {
      var front := path[..|path| - 1];
      assert IsCallPath(functions, front);
      ClosedHoldsAll(functions, needed, front);
      var name, callee := path[|path| - 2], path[|path| - 1];
      assert name in functions && callee in functions[name];
      assert callee in Called(functions, needed);
    }
  }

  /** The names needed are exactly those a chain of calls reaches from the roots. */
  method Needed(functions: Calls, roots: set<string>) returns (needed: set<string>)
    ensures forall name :: name in needed <==> Reachable(functions, roots, name)
  {
    hide Reachable;
    needed := roots;
    RootsReachable(functions, roots);
    while true
      invariant roots <= needed <= Mentioned(functions, roots)
      invariant forall name | name in needed :: Reachable(functions, roots, name)
      decreases Mentioned(functions, roots) - needed
    {
      var previous := needed;
      needed := needed + Called(functions, previous);
      CalledReachable(functions, roots, previous);
      if previous == needed {
        break;
      }
    }
    AllHeld(functions, roots, needed);
  }

  lemma {:induction false} AllHeld(functions: Calls, roots: set<string>, needed: set<string>)
    requires Called(functions, needed) <= needed && roots <= needed
    ensures forall name | Reachable(functions, roots, name) :: name in needed
  {
    forall name | Reachable(functions, roots, name) ensures name in needed {
      var path: seq<string> :| path != [] && path[0] in roots && path[|path| - 1] == name && IsCallPath(functions,
          path);
      ClosedHoldsAll(functions, needed, path);
    }
  }

  lemma {:induction false} CalledReachable(functions: Calls, roots: set<string>, names: set<string>)
    requires forall name | name in names :: Reachable(functions, roots, name)
    ensures forall callee | callee in Called(functions, names) :: Reachable(functions, roots, callee)
  {
    hide Reachable;
    forall callee | callee in Called(functions, names) ensures Reachable(functions, roots, callee) {
      var name :| name in names && name in functions && callee in functions[name];
      ReachableStep(functions, roots, name, callee);
    }
  }

  lemma {:induction false} RootsReachable(functions: Calls, roots: set<string>)
    ensures forall name | name in roots :: Reachable(functions, roots, name)
  {
    forall name | name in roots ensures Reachable(functions, roots, name) {
      assert IsCallPath(functions, [name]) && [name][0] in roots;
    }
  }
}
