/** Duplicate-free sequences: the abstract content of the linked lists. */
module Sequences {

  // Distinctness is stated over At, so that it is used only where a proof mentions At.
  ghost predicate NoDuplicates<T>(s: seq<T>) {
    forall i, j {:trigger At(s, i), At(s, j)} :: 0 <= i < j < |s| ==> At(s, i) != At(s, j)
  }

  function At<T>(s: seq<T>, i: nat): T
    requires i < |s|
  {
    s[i]
  }

  // s without its first occurrence of x.
  function Without<T(==)>(s: seq<T>, x: T): seq<T> {
    if s == [] then []
    else if s[0] == x then s[1..]
    else [s[0]] + Without(s[1..], x)
  }

  function IndexOf<T(==)>(s: seq<T>, x: T): (i: nat)
    requires x in s
    ensures i < |s| && s[i] == x
  {
    if s[0] == x then 0 else 1 + IndexOf(s[1..], x)
  }

  // Moving to the back, as both lookups and hits do.
  function Touch<T(==)>(s: seq<T>, x: T): seq<T> {
    Without(s, x) + [x]
  }

  // s without the element at position k.
  function RemoveAt<T>(s: seq<T>, k: nat): (r: seq<T>)
    requires k < |s|
    ensures |r| == |s| - 1
    ensures forall i :: 0 <= i < |r| ==> r[i] == s[if i < k then i else i + 1]
  {
    seq(|s| - 1, i requires 0 <= i < |s| - 1 => s[if i < k then i else i + 1])
  }

  function Elements<T>(s: seq<T>): set<T> {
    set x | x in s
  }

  lemma OnlyAt<T>(s: seq<T>, k: nat)
    requires NoDuplicates(s) && k < |s|
    ensures forall i :: 0 <= i < |s| && i != k ==> s[i] != s[k]
  {
    forall i | 0 <= i < |s| && i != k
      ensures s[i] != s[k]
    {
      assert At(s, i) != At(s, k);
    }
  }

  lemma IndexOfAt<T>(s: seq<T>, k: nat)
    requires NoDuplicates(s) && k < |s|
    ensures IndexOf(s, s[k]) == k
  {
    OnlyAt(s, k);
  }

  lemma NoDuplicatesTail<T>(s: seq<T>)
    requires NoDuplicates(s) && s != []
    ensures NoDuplicates(s[1..]) && s[0] !in s[1..]
  {
    OnlyAt(s, 0);
    forall i, j | 0 <= i < j < |s[1..]|
      ensures At(s[1..], i) != At(s[1..], j)
    {
      assert At(s, i + 1) != At(s, j + 1);
    }
  }

  lemma NoDuplicatesAppend<T>(s: seq<T>, x: T)
    requires NoDuplicates(s) && x !in s
    ensures NoDuplicates(s + [x])
  {
    forall i, j | 0 <= i < j < |s| + 1
      ensures At(s + [x], i) != At(s + [x], j)
    {
      if j < |s| {
        assert At(s, i) != At(s, j);
      }
    }
  }

  lemma NoDuplicatesUpdate<T>(s: seq<T>, k: nat, x: T)
    requires NoDuplicates(s) && k < |s| && x !in s
    ensures NoDuplicates(s[k := x])
  {
    var r := s[k := x];
    forall i, j {:trigger At(r, i), At(r, j)} | 0 <= i < j < |r|
      ensures At(r, i) != At(r, j)
    {
      assert At(s, i) != At(s, j);
    }
  }

  lemma RemoveAtMembers<T>(s: seq<T>, k: nat)
    requires NoDuplicates(s) && k < |s|
    ensures NoDuplicates(RemoveAt(s, k))
    ensures forall y :: y in RemoveAt(s, k) <==> y in s && y != s[k]
  {
    var r := RemoveAt(s, k);
    OnlyAt(s, k);
    forall i, j | 0 <= i < j < |r|
      ensures At(r, i) != At(r, j)
    {
      assert At(s, if i < k then i else i + 1) != At(s, if j < k then j else j + 1);
    }
    forall y | y in s && y != s[k]
      ensures y in r
    {
      var i := IndexOf(s, y);
      assert r[if i < k then i else i - 1] == y;
    }
  }

  lemma {:induction false} WithoutAt<T>(s: seq<T>, k: nat)
    requires NoDuplicates(s) && k < |s|
    ensures Without(s, s[k]) == RemoveAt(s, k)
  {
    if k == 0 {
      assert s[1..] == RemoveAt(s, 0);
    } else {
      OnlyAt(s, k);
      NoDuplicatesTail(s);
      WithoutAt(s[1..], k - 1);
      assert [s[0]] + RemoveAt(s[1..], k - 1) == RemoveAt(s, k);
    }
  }

  lemma {:induction false} WithoutAbsent<T>(s: seq<T>, x: T)
    requires x !in s
    ensures Without(s, x) == s
  {
    if s != [] {
      WithoutAbsent(s[1..], x);
    }
  }

  lemma WithoutMembers<T>(s: seq<T>, x: T)
    requires NoDuplicates(s)
    ensures NoDuplicates(Without(s, x))
    ensures forall y :: y in Without(s, x) <==> y in s && y != x
    ensures x in s ==> |Without(s, x)| == |s| - 1
  {
    if x in s {
      WithoutAt(s, IndexOf(s, x));
      RemoveAtMembers(s, IndexOf(s, x));
    } else {
      WithoutAbsent(s, x);
    }
  }

  lemma TouchMembers<T>(s: seq<T>, x: T)
    requires NoDuplicates(s)
    ensures NoDuplicates(Touch(s, x))
    ensures forall y :: y in Touch(s, x) <==> y in s || y == x
    ensures |Touch(s, x)| == if x in s then |s| else |s| + 1
  {
    WithoutMembers(s, x);
    NoDuplicatesAppend(Without(s, x), x);
    if x !in s {
      WithoutAbsent(s, x);
    }
  }

  lemma WithoutFirst<T>(s: seq<T>, x: T)
    requires s != []
    ensures Without(s, x) == if s[0] == x then s[1..] else [s[0]] + Without(s[1..], x)
    ensures x in s <==> s[0] == x || x in s[1..]
  {
  }

  lemma FirstOfConcat<T>(a: seq<T>, b: seq<T>)
    requires a != []
    ensures (a + b)[0] == a[0] && (a + b)[1..] == a[1..] + b && a == [a[0]] + a[1..]
  {
  }

  lemma ConcatAssociative<T>(a: seq<T>, b: seq<T>, c: seq<T>)
    ensures (a + b) + c == a + (b + c)
  {
  }

  lemma {:induction false} WithoutConcat<T>(a: seq<T>, b: seq<T>, x: T)
    ensures Without(a + b, x) == if x in a then Without(a, x) + b else a + Without(b, x)
  {
    hide Without;
    if a == [] {
      assert a + b == b && a + Without(b, x) == Without(b, x);
    } else {
      FirstOfConcat(a, b);
      WithoutFirst(a + b, x);
      WithoutFirst(a, x);
      WithoutConcat(a[1..], b, x);
      ConcatAssociative([a[0]], Without(a[1..], x), b);
      ConcatAssociative([a[0]], a[1..], Without(b, x));
    }
  }

  lemma {:induction false} NoDuplicatesCard<T>(s: seq<T>)
    requires NoDuplicates(s)
    ensures |Elements(s)| == |s|
  {
    if s != [] {
      NoDuplicatesTail(s);
      NoDuplicatesCard(s[1..]);
      assert Elements(s) == {s[0]} + Elements(s[1..]);
    }
  }

  lemma SubsetCard<T>(a: set<T>, b: set<T>)
    requires a <= b
    ensures |a| <= |b|
  {
    assert b == a + (b - a);
  }

  // The distinct elements of a history, each at its last occurrence.
  function KeepLast<T(==)>(t: seq<T>): seq<T> {
    if t == [] then []
    else if t[0] in t[1..] then KeepLast(t[1..])
    else [t[0]] + KeepLast(t[1..])
  }

  lemma {:induction false} KeepLastMembers<T>(t: seq<T>)
    ensures NoDuplicates(KeepLast(t))
    ensures forall n :: n in KeepLast(t) <==> n in t
  {
    if t != [] {
      KeepLastMembers(t[1..]);
      if t[0] !in t[1..] {
        var k := KeepLast(t[1..]);
        forall i, j | 0 <= i < j < |k| + 1
          ensures At([t[0]] + k, i) != At([t[0]] + k, j)
        {
          if i > 0 {
            assert At(k, i - 1) != At(k, j - 1);
          }
        }
      }
    }
  }

  lemma {:induction false} KeepLastAppend<T>(t: seq<T>, x: T)
    ensures KeepLast(t + [x]) == Touch(KeepLast(t), x)
  {
    if t != [] {
      assert (t + [x])[1..] == t[1..] + [x];
      KeepLastAppend(t[1..], x);
      KeepLastMembers(t[1..]);
      if t[0] == x && x !in t[1..] {
        WithoutAbsent(KeepLast(t[1..]), x);
      }
    }
  }

  lemma {:induction false} KeepLastDistinct<T>(s: seq<T>)
    requires NoDuplicates(s)
    ensures KeepLast(s) == s
  {
    if s != [] {
      NoDuplicatesTail(s);
      KeepLastDistinct(s[1..]);
    }
  }

  lemma SliceOfSlice<T>(s: seq<T>, a: nat, b: nat, i: nat, j: nat)
    requires a <= b <= |s| && i <= j <= b - a
    ensures s[a..b][i..j] == s[a + i..a + j]
  {
    var x, y := s[a..b][i..j], s[a + i..a + j];
    forall k | 0 <= k < |x|
      ensures x[k] == y[k]
    {
      assert x[k] == s[a..b][i + k];
    }
  }

  function Flatten<T>(s: seq<seq<T>>): seq<T> {
    if s == [] then [] else s[0] + Flatten(s[1..])
  }

  lemma {:induction false} FlattenAppend<T>(a: seq<seq<T>>, b: seq<seq<T>>)
    ensures Flatten(a + b) == Flatten(a) + Flatten(b)
  {
    if a == [] {
      assert a + b == b;
    } else {
      assert (a + b)[1..] == a[1..] + b;
      FlattenAppend(a[1..], b);
    }
  }
}
