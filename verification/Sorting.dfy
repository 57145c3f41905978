/** Rust's stable `sort`, `sort_by` and `dedup` on sequences, and the order on byte strings and text. */
module Sorting {
  import opened Basics

  /** `le` never leaves two values unordered and is transitive; it may tie distinct values. */
  ghost predicate TotalPreorder<T(!new)>(le: (T, T) -> bool) {
    && (forall a, b :: le(a, b) || le(b, a))
    && (forall a, b, c :: le(a, b) && le(b, c) ==> le(a, c))
  }

  /** `le` ties no two distinct members of `s`. */
  ghost predicate TellsApart<T>(s: seq<T>, le: (T, T) -> bool) {
    forall a, b | a in s && b in s && le(a, b) && le(b, a) :: a == b
  }

  ghost predicate Sorted<T>(s: seq<T>, le: (T, T) -> bool) {
    forall i, j | 0 <= i < j < |s| :: le(s[i], s[j])
  }

  function Insert<T>(x: T, s: seq<T>, le: (T, T) -> bool): seq<T> {
    if s == [] || le(x, s[0]) then [x] + s else [s[0]] + Insert(x, s[1..], le)
  }

  /** A stable sort: an element goes before the later elements it ties with. */
  function Sort<T>(s: seq<T>, le: (T, T) -> bool): seq<T> {
    if s == [] then [] else Insert(s[0], Sort(s[1..], le), le)
  }

  lemma {:induction false} InsertPermutes<T>(x: T, s: seq<T>, le: (T, T) -> bool)
    ensures Permutation(Insert(x, s, le), [x] + s)
  {
    if s != [] && !le(x, s[0]) {
      InsertPermutes(x, s[1..], le);
      assert s == [s[0]] + s[1..];
    }
  }

  lemma {:induction false} InsertSorts<T(!new)>(x: T, s: seq<T>, le: (T, T) -> bool)
    requires TotalPreorder(le) && Sorted(s, le)
    ensures Sorted(Insert(x, s, le), le)
  {
    if s != [] && !le(x, s[0]) {
      var rest := Insert(x, s[1..], le);
      InsertSorts(x, s[1..], le);
      InsertPermutes(x, s[1..], le);
      PermutationMembers(rest, [x] + s[1..]);
      forall y | y in rest ensures le(s[0], y) {
        assert y in [x] + s[1..];
      }
    }
  }

  lemma {:induction false} SortCorrect<T(!new)>(s: seq<T>, le: (T, T) -> bool)
    requires TotalPreorder(le)
    ensures Permutation(Sort(s, le), s)
    ensures Sorted(Sort(s, le), le)
  {
    if s != [] {
      SortCorrect(s[1..], le);
      InsertSorts(s[0], Sort(s[1..], le), le);
      InsertPermutes(s[0], Sort(s[1..], le), le);
      assert s == [s[0]] + s[1..];
    }
  }

  lemma SortedHead<T(!new)>(a: seq<T>, b: seq<T>, le: (T, T) -> bool)
    requires TotalPreorder(le) && TellsApart(a, le)
    requires Permutation(a, b) && Sorted(a, le) && Sorted(b, le) && a != []
    ensures b != [] && a[0] == b[0]
  {
    PermutationMembers(a, b);
    assert a[0] in a && b[0] in b;
    var i :| 0 <= i < |b| && b[i] == a[0];
    var j :| 0 <= j < |a| && a[j] == b[0];
    assert le(b[0], b[i]) && le(a[0], a[j]);
  }

  /** Sorting has one outcome: two sorted arrangements of the same elements are the same sequence. */
  lemma {:induction false} SortedUnique<T(!new)>(a: seq<T>, b: seq<T>, le: (T, T) -> bool)
    requires TotalPreorder(le) && TellsApart(a, le)
    requires Permutation(a, b) && Sorted(a, le) && Sorted(b, le)
    ensures a == b
  {
    if a == [] {
      assert |multiset(b)| == 0;
    } else {
      SortedHead(a, b, le);
      assert a == [a[0]] + a[1..] && b == [b[0]] + b[1..];
      assert multiset(a[1..]) == multiset(a) - multiset{a[0]};
      assert multiset(b[1..]) == multiset(b) - multiset{b[0]};
      SortedUnique(a[1..], b[1..], le);
    }
  }

  lemma SortInsensitive<T(!new)>(a: seq<T>, b: seq<T>, le: (T, T) -> bool)
    requires TotalPreorder(le) && TellsApart(a, le) && Permutation(a, b)
    ensures Sort(a, le) == Sort(b, le)
  {
    SortCorrect(a, le);
    SortCorrect(b, le);
    PermutationMembers(Sort(a, le), a);
    SortedUnique(Sort(a, le), Sort(b, le), le);
  }

  /** What is already sorted is left alone. */
  lemma SortSorted<T(!new)>(s: seq<T>, le: (T, T) -> bool)
    requires TotalPreorder(le) && TellsApart(s, le) && Sorted(s, le)
    ensures Sort(s, le) == s
  {
    SortCorrect(s, le);
    SortedUnique(s, Sort(s, le), le);
  }

  /** The order of byte strings: the first difference decides, a proper prefix comes first. */
  predicate BytesLe(a: seq<byte>, b: seq<byte>) {
    a == [] || (b != [] && (a[0] < b[0] || (a[0] == b[0] && BytesLe(a[1..], b[1..]))))
  }

  /** The order of text, by code point, which is the order of its UTF-8 encoding. */
  predicate TextLe(a: string, b: string) {
    a == [] || (b != [] && (a[0] < b[0] || (a[0] == b[0] && TextLe(a[1..], b[1..]))))
  }

  /** The texts agree up to here, and `a` ends or is less at this place. */
  ghost predicate BytesPrecede(a: seq<byte>, b: seq<byte>, k: nat) {
    k <= |a| && k <= |b| && a[..k] == b[..k] && (k == |a| || (k < |b| && a[k] < b[k]))
  }

  lemma {:induction false} BytesPrecedeLater(a: seq<byte>, b: seq<byte>, k: nat)
    requires a != [] && b != [] && a[0] == b[0]
    ensures BytesPrecede(a[1..], b[1..], k) <==> BytesPrecede(a, b, k + 1)
  {
    if k < |a| && k < |b| {
      assert a[..k + 1] == [a[0]] + a[1..][..k] && b[..k + 1] == [b[0]] + b[1..][..k];
      assert a[1..][..k] == a[..k + 1][1..] && b[1..][..k] == b[..k + 1][1..];
    }
  }

  lemma {:induction false} BytesLexicographic(a: seq<byte>, b: seq<byte>)
    ensures BytesLe(a, b) <==> exists k: nat :: BytesPrecede(a, b, k)
  {
    forall k: nat | BytesPrecede(a, b, k) && k > 0 ensures a != [] && b != [] && a[0] == b[0] {
      assert a[..k][0] == b[..k][0];
    }
    if a == [] || b == [] || a[0] != b[0] {
      assert BytesLe(a, b) ==> BytesPrecede(a, b, 0);
    } else {
      BytesLexicographic(a[1..], b[1..]);
      if k: nat :| BytesPrecede(a[1..], b[1..], k) {
        BytesPrecedeLater(a, b, k);
      }
      if k: nat :| BytesPrecede(a, b, k) {
        BytesPrecedeLater(a, b, k - 1);
      }
    }
  }

  /** The texts agree up to here, and `a` ends or is less at this place. */
  ghost predicate TextPrecedes(a: string, b: string, k: nat) {
    k <= |a| && k <= |b| && a[..k] == b[..k] && (k == |a| || (k < |b| && a[k] < b[k]))
  }

  lemma {:induction false} TextPrecedesLater(a: string, b: string, k: nat)
    requires a != [] && b != [] && a[0] == b[0]
    ensures TextPrecedes(a[1..], b[1..], k) <==> TextPrecedes(a, b, k + 1)
  {
    if k < |a| && k < |b| {
      assert a[..k + 1] == [a[0]] + a[1..][..k] && b[..k + 1] == [b[0]] + b[1..][..k];
      assert a[1..][..k] == a[..k + 1][1..] && b[1..][..k] == b[..k + 1][1..];
    }
  }

  lemma {:induction false} TextLexicographic(a: string, b: string)
    ensures TextLe(a, b) <==> exists k: nat :: TextPrecedes(a, b, k)
  {
    forall k: nat | TextPrecedes(a, b, k) && k > 0 ensures a != [] && b != [] && a[0] == b[0] {
      assert a[..k][0] == b[..k][0];
    }
    if a == [] || b == [] || a[0] != b[0] {
      assert TextLe(a, b) ==> TextPrecedes(a, b, 0);
    } else {
      TextLexicographic(a[1..], b[1..]);
      if k: nat :| TextPrecedes(a[1..], b[1..], k) {
        TextPrecedesLater(a, b, k);
      }
      if k: nat :| TextPrecedes(a, b, k) {
        TextPrecedesLater(a, b, k - 1);
      }
    }
  }

  lemma BytesLeTransitive(a: seq<byte>, b: seq<byte>, c: seq<byte>)
    requires BytesLe(a, b) && BytesLe(b, c)
    ensures BytesLe(a, c)
  {}

  lemma BytesLeTotal(a: seq<byte>, b: seq<byte>)
    ensures BytesLe(a, b) || BytesLe(b, a)
    ensures BytesLe(a, b) && BytesLe(b, a) ==> a == b
  {
    if a != [] && b != [] && a[0] == b[0] {
      BytesLeTotal(a[1..], b[1..]);
      assert a == [a[0]] + a[1..] && b == [b[0]] + b[1..];
    }
  }

  lemma BytesOrder()
    ensures TotalPreorder(BytesLe)
    ensures forall s: seq<seq<byte>> :: TellsApart(s, BytesLe)
  {
    forall a, b ensures BytesLe(a, b) || BytesLe(b, a) {
      BytesLeTotal(a, b);
    }
    forall a, b, c | BytesLe(a, b) && BytesLe(b, c) ensures BytesLe(a, c) {
      BytesLeTransitive(a, b, c);
    }
    forall a, b | BytesLe(a, b) && BytesLe(b, a) ensures a == b {
      BytesLeTotal(a, b);
    }
  }

  lemma TextLeTransitive(a: string, b: string, c: string)
    requires TextLe(a, b) && TextLe(b, c)
    ensures TextLe(a, c)
  {}

  lemma TextLeTotal(a: string, b: string)
    ensures TextLe(a, b) || TextLe(b, a)
    ensures TextLe(a, b) && TextLe(b, a) ==> a == b
  {
    if a != [] && b != [] && a[0] == b[0] {
      TextLeTotal(a[1..], b[1..]);
      assert a == [a[0]] + a[1..] && b == [b[0]] + b[1..];
    }
  }

  lemma TextOrder()
    ensures TotalPreorder(TextLe)
    ensures forall s: seq<string> :: TellsApart(s, TextLe)
    ensures forall a, b :: TextLe(a, b) && TextLe(b, a) ==> a == b
  {
    forall a, b ensures TextLe(a, b) || TextLe(b, a) {
      TextLeTotal(a, b);
    }
    forall a, b, c | TextLe(a, b) && TextLe(b, c) ensures TextLe(a, c) {
      TextLeTransitive(a, b, c);
    }
    forall a, b | TextLe(a, b) && TextLe(b, a) ensures a == b {
      TextLeTotal(a, b);
    }
  }
}
