/** JavaScript's `Array.prototype.sort(compare)`, which the language
    requires to be stable: a comparator-generic stable insertion sort, as a
    specification function and as an in-place array method. */
module StableSort {

  /** `a` may stay in front of `b`. */
  predicate Precedes<T>(compare: (T, T) -> int, a: T, b: T) {
    compare(a, b) <= 0
  }

  /** The comparator is consistent: `compare(a, b)` and `compare(b, a)` have
      opposite signs, and `Precedes` is transitive. */
  ghost predicate Consistent<T(!new)>(compare: (T, T) -> int) {
    && (forall a, b :: compare(a, b) == -compare(b, a))
    && (forall a, b, c {:trigger Precedes(compare, a, b), Precedes(compare, b, c)} ::
          Precedes(compare, a, b) && Precedes(compare, b, c) ==> Precedes(compare, a, c))
  }

  lemma Transitive<T(!new)>(compare: (T, T) -> int, a: T, b: T, c: T)
    requires Consistent(compare)
    requires compare(a, b) <= 0 && compare(b, c) <= 0
    ensures compare(a, c) <= 0
  {
    assert Precedes(compare, a, b) && Precedes(compare, b, c);
  }

  predicate Ordered<T>(s: seq<T>, compare: (T, T) -> int) {
    forall i, j :: 0 <= i < j < |s| ==> compare(s[i], s[j]) <= 0
  }

  /** Inserts `x` into `s` just after the last element that may precede it. */
  function Insert<T>(s: seq<T>, x: T, compare: (T, T) -> int): seq<T> {
    if s == [] then [x]
    else if compare(s[|s| - 1], x) <= 0 then s + [x]
    else Insert(s[..|s| - 1], x, compare) + [s[|s| - 1]]
  }

  function Sorted<T>(s: seq<T>, compare: (T, T) -> int): seq<T> {
    if s == [] then [] else Insert(Sorted(s[..|s| - 1], compare), s[|s| - 1], compare)
  }

  /** Where `Insert` puts `x`: after `s[..j]`, when every later element must
      follow `x` and `s[j - 1]` may precede it. */
  lemma {:induction false} InsertAt<T>(s: seq<T>, j: nat, x: T, compare: (T, T) -> int)
    requires j <= |s|
    requires j > 0 ==> compare(s[j - 1], x) <= 0
    requires forall k :: j <= k < |s| ==> compare(s[k], x) > 0
    ensures Insert(s, x, compare) == s[..j] + [x] + s[j..]
    decreases |s|
  {
    if j == |s| {
      assert s[..j] == s && s[j..] == [];
    } else {
      var init, last := s[..|s| - 1], s[|s| - 1];
      assert compare(last, x) > 0;
      assert Insert(s, x, compare) == Insert(init, x, compare) + [last];
      InsertAt(init, j, x, compare);
      assert init[..j] == s[..j];
      assert forall k :: 0 <= k < |s| - j ==> s[j..][k] == (init[j..] + [last])[k];
      assert init[j..] + [last] == s[j..];
    }
  }

  lemma {:induction false} InsertPermutes<T>(s: seq<T>, x: T, compare: (T, T) -> int)
    ensures multiset(Insert(s, x, compare)) == multiset(s) + multiset{x}
  {
    if s != [] && compare(s[|s| - 1], x) > 0 {
      var init, last := s[..|s| - 1], s[|s| - 1];
      assert s == init + [last];
      InsertPermutes(init, x, compare);
    }
  }

  lemma {:induction false} InsertOrdered<T(!new)>(s: seq<T>, x: T, compare: (T, T) -> int)
    requires Consistent(compare)
    requires Ordered(s, compare)
    ensures Ordered(Insert(s, x, compare), compare)
  {
    if s == [] {
    } else if compare(s[|s| - 1], x) <= 0 {
      var r := s + [x];
      forall i, j | 0 <= i < j < |r| ensures compare(r[i], r[j]) <= 0 {
        if j == |s| && i < |s| - 1 {
          Transitive(compare, s[i], s[|s| - 1], x);
        }
      }
    } else {
      var init, last := s[..|s| - 1], s[|s| - 1];
      InsertOrdered(init, x, compare);
      InsertPermutes(init, x, compare);
      var ins := Insert(init, x, compare);
      forall y | y in ins ensures compare(y, last) <= 0 {
        assert y in multiset(ins);
        if y != x {
          assert y in multiset(init);
          var k :| 0 <= k < |init| && init[k] == y;
          assert s[k] == y;
        }
      }
      var r := ins + [last];
      forall i, j | 0 <= i < j < |r| ensures compare(r[i], r[j]) <= 0 {
        if j == |ins| {
          assert r[i] == ins[i];
          assert ins[i] in ins;
        }
      }
    }
  }

  /** The sort is a permutation of its input and leaves it ordered. */
  lemma {:induction false} SortedSpec<T(!new)>(s: seq<T>, compare: (T, T) -> int)
    requires Consistent(compare)
    ensures multiset(Sorted(s, compare)) == multiset(s)
    ensures |Sorted(s, compare)| == |s|
    ensures Ordered(Sorted(s, compare), compare)
  {
    if s != [] {
      var init, last := s[..|s| - 1], s[|s| - 1];
      assert s == init + [last];
      SortedSpec(init, compare);
      InsertPermutes(Sorted(init, compare), last, compare);
      InsertOrdered(Sorted(init, compare), last, compare);
    }
    assert |multiset(Sorted(s, compare))| == |multiset(s)|;
  }

  /** The elements of `s` that compare equal to `k`, in order. */
  function EqualTo<T>(s: seq<T>, k: T, compare: (T, T) -> int): seq<T> {
    if s == [] then []
    else EqualTo(s[..|s| - 1], k, compare) + if compare(s[|s| - 1], k) == 0 then [s[|s| - 1]] else []
  }

  lemma {:induction false} EqualToAppend<T>(a: seq<T>, b: seq<T>, k: T, compare: (T, T) -> int)
    ensures EqualTo(a + b, k, compare) == EqualTo(a, k, compare) + EqualTo(b, k, compare)
    decreases |b|
  {
    if b == [] {
      assert a + b == a;
    } else {
      var binit, blast := b[..|b| - 1], b[|b| - 1];
      assert (a + b)[..|a + b| - 1] == a + binit;
      assert (a + b)[|a + b| - 1] == blast;
      EqualToAppend(a, binit, k, compare);
    }
  }

  function EqualToOne<T>(x: T, k: T, compare: (T, T) -> int): seq<T> {
    if compare(x, k) == 0 then [x] else []
  }

  lemma EqualToSingleton<T>(x: T, k: T, compare: (T, T) -> int)
    ensures EqualTo([x], k, compare) == EqualToOne(x, k, compare)
  {
    assert [x][..0] == [];
  }

  /** Inserting `x` keeps the order of the elements equal to `k`, given
      that elements equal to `k` may precede `x` when `x` is equal to `k`. */
  lemma {:induction false} InsertStable<T>(s: seq<T>, x: T, k: T, compare: (T, T) -> int)
    requires compare(x, k) == 0 ==> forall y :: y in s && compare(y, k) == 0 ==> compare(y, x) <= 0
    ensures EqualTo(Insert(s, x, compare), k, compare) == EqualTo(s, k, compare) + EqualToOne(x, k, compare)
  {
    EqualToSingleton(x, k, compare);
    if s == [] {
      assert EqualTo(s, k, compare) == [];
    } else if compare(s[|s| - 1], x) <= 0 {
      EqualToAppend(s, [x], k, compare);
    } else {
      var init, last := s[..|s| - 1], s[|s| - 1];
      assert forall y :: y in init ==> y in s;
      var ins := Insert(init, x, compare);
      assert Insert(s, x, compare) == ins + [last];
      InsertStable(init, x, k, compare);
      EqualToAppend(ins, [last], k, compare);
      EqualToSingleton(last, k, compare);
      var e, ex, el := EqualTo(init, k, compare), EqualToOne(x, k, compare), EqualToOne(last, k, compare);
      assert EqualTo(s, k, compare) == e + el;
      assert EqualTo(Insert(s, x, compare), k, compare) == e + ex + el;
      assert last in s;
      assert ex == [] || el == [];
    }
  }

  /** Stability: the elements that compare equal to any `k` keep their
      input order. */
  lemma {:induction false} SortedStable<T(!new)>(s: seq<T>, k: T, compare: (T, T) -> int)
    requires Consistent(compare)
    ensures EqualTo(Sorted(s, compare), k, compare) == EqualTo(s, k, compare)
  {
    if s != [] {
      var init, last := s[..|s| - 1], s[|s| - 1];
      var sorted := Sorted(init, compare);
      SortedStable(init, k, compare);
      if compare(last, k) == 0 {
        forall y | y in sorted && compare(y, k) == 0 ensures compare(y, last) <= 0 {
          Transitive(compare, y, k, last);
        }
      }
      InsertStable(sorted, last, k, compare);
      EqualToSingleton(last, k, compare);
      assert EqualTo(s, k, compare) == EqualTo(init, k, compare) + EqualToOne(last, k, compare);
    }
  }

  /** One pass of the insertion sort: moves `a[i]` left past every element
      of the prefix `a[..i]` that must follow it. */
  method InsertInPlace<T>(a: array<T>, i: nat, compare: (T, T) -> int)
    requires i < a.Length
    modifies a
    ensures a[..i + 1] == Insert(old(a[..i]), old(a[i]), compare)
    ensures forall k :: i < k < a.Length ==> a[k] == old(a[k])
  {
    ghost var sorted := a[..i];
    var x := a[i];
    var j := i;
    while j > 0 && compare(a[j - 1], x) > 0
      invariant 0 <= j <= i
      invariant forall k :: 0 <= k < j ==> a[k] == sorted[k]
      invariant forall k :: j < k <= i ==> a[k] == sorted[k - 1]
      invariant forall k :: j <= k < i ==> compare(sorted[k], x) > 0
      invariant forall k :: i < k < a.Length ==> a[k] == old(a[k])
    {
      a[j] := a[j - 1];
      j := j - 1;
    }
    InsertAt(sorted, j, x, compare);
    a[j] := x;
    Shifted(a[..i + 1], sorted, j, x);
  }

  /** A sequence that agrees with `sorted` before `j`, holds `x` at `j` and
      agrees with `sorted` shifted by one after `j` is `sorted` with `x`
      inserted at `j`. */
  lemma Shifted<T>(s: seq<T>, sorted: seq<T>, j: nat, x: T)
    requires j <= |sorted| && |s| == |sorted| + 1
    requires forall k :: 0 <= k < j ==> s[k] == sorted[k]
    requires s[j] == x
    requires forall k :: j < k < |s| ==> s[k] == sorted[k - 1]
    ensures s == sorted[..j] + [x] + sorted[j..]
  {
    assert forall k :: 0 <= k < |s| ==> s[k] == (sorted[..j] + [x] + sorted[j..])[k];
  }

  /** `a.sort(compare)`: an insertion sort in place. */
  method SortInPlace<T>(a: array<T>, compare: (T, T) -> int)
    modifies a
    ensures a[..] == Sorted(old(a[..]), compare)
  {
    ghost var input := a[..];
    var i := 0;
    while i < a.Length
      invariant 0 <= i <= a.Length
      invariant a[..i] == Sorted(input[..i], compare)
      invariant forall k :: i <= k < a.Length ==> a[k] == input[k]
    {
      InsertInPlace(a, i, compare);
      assert input[..i + 1][..i] == input[..i];
      i := i + 1;
    }
    assert a[..] == a[..a.Length];
    assert input[..a.Length] == input;
  }
}
