/**
 * `Array.prototype.sort` with a comparator, as the client uses it: an in-place, stable sort.
 * A comparator `cmp` is described here by `before(x, y)`, "x must come before y", which holds
 * when `cmp(y, x) > 0`. For a comparator that is consistent (a strict weak order), every stable
 * sort produces the same array, so the insertion sort below stands for the engine's algorithm.
 */
module StableSort {

  /** `x` is placed after the last element of `t` it need not precede. */
  function Insert<T>(t: seq<T>, x: T, before: (T, T) -> bool): (r: seq<T>)
    ensures |r| == |t| + 1
  {
    if t == [] || !before(x, t[|t| - 1]) then t + [x]
    else Insert(t[..|t| - 1], x, before) + [t[|t| - 1]]
  }

  /** The order a stable sort leaves `s` in. */
  function InsertionSort<T>(s: seq<T>, before: (T, T) -> bool): (r: seq<T>)
    ensures |r| == |s|
  {
    if s == [] then [] else Insert(InsertionSort(s[..|s| - 1], before), s[|s| - 1], before)
  }

  /** Sorts `a` in place: afterwards it holds `InsertionSort` of what it held before. */
  method Sort<T>(a: array<T>, before: (T, T) -> bool)
    modifies a
    ensures a[..] == InsertionSort(old(a[..]), before)
  {
    for i := 0 to a.Length
      invariant a[..i] == InsertionSort(old(a[..i]), before)
      invariant a[i..] == old(a[i..])
    {
      assert old(a[..i + 1]) == old(a[..i]) + [old(a[i])];
      InsertAt(a, i, before);
    }
    assert a[..a.Length] == a[..] && old(a[..a.Length]) == old(a[..]);
  }

  /** `s` copied into a fresh array and sorted there, as `array.sort(compare)` leaves it. */
  method SortedCopy<T>(s: seq<T>, before: (T, T) -> bool) returns (r: seq<T>)
    ensures r == InsertionSort(s, before)
  {
    var a := new T[|s|](k requires 0 <= k < |s| => s[k]);
    assert a[..] == s;
    Sort(a, before);
    r := a[..];
  }

  /** One pass of the sort: `a[i]` is moved left into the sorted prefix `a[..i]`. */
  method InsertAt<T>(a: array<T>, i: int, before: (T, T) -> bool)
    requires 0 <= i < a.Length
    modifies a
    ensures a[..i + 1] == Insert(old(a[..i]), old(a[i]), before)
    ensures a[i + 1..] == old(a[i + 1..])
  {
    ghost var t, rest := a[..i], a[i + 1..];
    var x := a[i];
    var j := i;
    Placed(a[..], i, x);
    NothingMovedYet(t, x, before);
    while j > 0 && before(x, a[j - 1])
      invariant 0 <= j <= i
      invariant a[..] == t[..j] + [x] + t[j..] + rest
      invariant Insert(t, x, before) == Insert(t[..j], x, before) + t[j..]
    {
      ghost var s := a[..];
      a[j], a[j - 1] := a[j - 1], x;
      assert a[..] == s[j := s[j - 1]][j - 1 := x];
      MoveDown(t, j, x, rest);
      InsertStep(t, j, x, before);
      j := j - 1;
    }
    Parts(t, j, x, rest);
  }

  /** Before the pass, the array is the sorted prefix, `x`, and the rest. */
  lemma Placed<T>(s: seq<T>, i: int, x: T)
    requires 0 <= i < |s| && s[i] == x
    ensures s == s[..i][..i] + [x] + s[..i][i..] + s[i + 1..]
  {
  }

  lemma NothingMovedYet<T>(t: seq<T>, x: T, before: (T, T) -> bool)
    ensures Insert(t, x, before) == Insert(t[..|t|], x, before) + t[|t|..]
  {
    assert t[..|t|] == t && t[|t|..] == [];
  }

  /** Moving `x` one place left past `t[j - 1]`. */
  lemma MoveDown<T>(t: seq<T>, j: int, x: T, rest: seq<T>)
    requires 0 < j <= |t|
    ensures var s := t[..j] + [x] + t[j..] + rest;
      s[j := s[j - 1]][j - 1 := x] == t[..j - 1] + [x] + t[j - 1..] + rest
  {
  }

  /** After the pass: the first `|t| + 1` places hold the insertion, the rest is untouched. */
  lemma Parts<T>(t: seq<T>, j: int, x: T, rest: seq<T>)
    requires 0 <= j <= |t|
    ensures var s := t[..j] + [x] + t[j..] + rest;
      s[..|t| + 1] == t[..j] + [x] + t[j..] && s[|t| + 1..] == rest
  {
  }

  /** One shift of the inner loop: `x` moves in front of `t[j - 1]`. */
  lemma InsertStep<T>(t: seq<T>, j: int, x: T, before: (T, T) -> bool)
    requires 0 < j <= |t| && before(x, t[j - 1])
    ensures Insert(t[..j], x, before) + t[j..] == Insert(t[..j - 1], x, before) + t[j - 1..]
  {
    assert t[..j][..j - 1] == t[..j - 1];
    assert t[j - 1..] == [t[j - 1]] + t[j..];
  }

  // ---- What a comparator must be for the sort to be meaningful ----

  /**
   * `before` is a strict weak order on the elements of `s`: irreflexive, transitive, and
   * "incomparable" is transitive too (if x precedes z, any y precedes z or follows x).
   */
  ghost predicate StrictWeakOrderOn<T>(s: seq<T>, before: (T, T) -> bool) {
    (forall x | x in s :: !before(x, x))
    && (forall x, y, z | x in s && y in s && z in s :: before(x, y) && before(y, z) ==> before(x, z))
    && (forall x, y, z | x in s && y in s && z in s :: before(x, z) ==> before(x, y) || before(y, z))
  }

  /** No element is placed after one it must precede. */
  predicate SortedBy<T>(r: seq<T>, before: (T, T) -> bool) {
    forall i, j | 0 <= i < j < |r| :: !before(r[j], r[i])
  }

  /** Neither must precede the other. */
  predicate Equivalent<T>(x: T, y: T, before: (T, T) -> bool) {
    !before(x, y) && !before(y, x)
  }

  /** The elements of `s` equivalent to `e`, in their order in `s`. */
  function EquivalentTo<T>(s: seq<T>, e: T, before: (T, T) -> bool): seq<T> {
    if s == [] then []
    else EquivalentTo(s[..|s| - 1], e, before) + (if Equivalent(s[|s| - 1], e, before) then [s[|s| - 1]] else [])
  }

  // ---- Insert ----

  /** `Insert` puts `x` at some position `k`, after every element it need not precede. */
  lemma {:induction false} InsertShape<T>(t: seq<T>, x: T, before: (T, T) -> bool) returns (k: int)
    ensures 0 <= k <= |t|
    ensures Insert(t, x, before) == t[..k] + [x] + t[k..]
    ensures forall m | k <= m < |t| :: before(x, t[m])
    ensures k > 0 ==> !before(x, t[k - 1])
  {
    if t == [] || !before(x, t[|t| - 1]) {
      k := |t|;
      assert t[..k] == t;
    } else {
      var u := t[..|t| - 1];
      k := InsertShape(u, x, before);
      assert u[..k] == t[..k];
      assert u[k..] + [t[|t| - 1]] == t[k..];
    }
  }

  lemma {:induction false} InsertMultiset<T>(t: seq<T>, x: T, before: (T, T) -> bool)
    ensures multiset(Insert(t, x, before)) == multiset(t) + multiset{x}
  {
    if t != [] && before(x, t[|t| - 1]) {
      var u, last := t[..|t| - 1], t[|t| - 1];
      InsertMultiset(u, x, before);
      assert t == u + [last];
      assert Insert(t, x, before) == Insert(u, x, before) + [last];
    }
  }

  lemma InsertSorted<T>(t: seq<T>, x: T, s: seq<T>, before: (T, T) -> bool)
    requires StrictWeakOrderOn(s, before)
    requires forall y | y in t :: y in s
    requires x in s
    requires SortedBy(t, before)
    ensures SortedBy(Insert(t, x, before), before)
  {
    var k := InsertShape(t, x, before);
    var r := Insert(t, x, before);
    forall i, j | 0 <= i < j < |r|
      ensures !before(r[j], r[i])
    {
      if i < k && j < k {
        assert r[i] == t[i] && r[j] == t[j];
      } else if i < k && j == k {
        assert r[i] == t[i] && r[j] == x;
        var p, q := t[k - 1], t[i];
        assert before(x, q) ==> before(x, p) || before(p, q);
      } else if i < k {
        assert r[i] == t[i] && r[j] == t[j - 1];
      } else if i == k {
        assert r[i] == x && r[j] == t[j - 1];
        assert before(x, t[j - 1]);
      } else {
        assert r[i] == t[i - 1] && r[j] == t[j - 1];
      }
    }
  }

  lemma EquivalentToAppend<T>(a: seq<T>, b: seq<T>, e: T, before: (T, T) -> bool)
    ensures EquivalentTo(a + b, e, before) == EquivalentTo(a, e, before) + EquivalentTo(b, e, before)
    decreases |b|
  {
    if b != [] {
      assert (a + b)[..|a + b| - 1] == a + b[..|b| - 1];
      EquivalentToAppend(a, b[..|b| - 1], e, before);
    } else {
      assert a + b == a;
    }
  }

  lemma EquivalentToNone<T>(t: seq<T>, e: T, before: (T, T) -> bool)
    requires forall y | y in t :: !Equivalent(y, e, before)
    ensures EquivalentTo(t, e, before) == []
  {
    if t != [] {
      EquivalentToNone(t[..|t| - 1], e, before);
    }
  }

  /** Inserting `x` adds it to the end of its own equivalence class and leaves the others alone. */
  lemma InsertEquivalentTo<T>(t: seq<T>, x: T, e: T, s: seq<T>, before: (T, T) -> bool)
    requires StrictWeakOrderOn(s, before)
    requires forall y | y in t :: y in s
    requires x in s && e in s
    ensures EquivalentTo(Insert(t, x, before), e, before)
         == EquivalentTo(t, e, before) + (if Equivalent(x, e, before) then [x] else [])
  {
    var k := InsertShape(t, x, before);
    if Equivalent(x, e, before) {
      NoneEquivalentAfter(t, x, e, k, s, before);
    }
    InsertAtEquivalentTo(t[..k], x, t[k..], e, before);
    assert t[..k] + t[k..] == t;
  }

  /**
   * Placing `x` between `a` and `b` adds it to the elements equivalent to `e`, at the end when
   * nothing in `b` is equivalent to `e`.
   */
  lemma InsertAtEquivalentTo<T>(a: seq<T>, x: T, b: seq<T>, e: T, before: (T, T) -> bool)
    requires Equivalent(x, e, before) ==> EquivalentTo(b, e, before) == []
    ensures EquivalentTo(a + [x] + b, e, before)
         == EquivalentTo(a + b, e, before) + (if Equivalent(x, e, before) then [x] else [])
  {
    EquivalentToThree(a, x, b, e, before);
    EquivalentToAppend(a, b, e, before);
    var ea, eb := EquivalentTo(a, e, before), EquivalentTo(b, e, before);
    var ex := if Equivalent(x, e, before) then [x] else [];
    if Equivalent(x, e, before) {
      assert ea + ex + eb == ea + ex;
    } else {
      assert ea + ex + eb == ea + eb;
    }
  }

  /** Nothing `x` must precede is equivalent to an element equivalent to `x`. */
  lemma NoneEquivalentAfter<T>(t: seq<T>, x: T, e: T, k: int, s: seq<T>, before: (T, T) -> bool)
    requires StrictWeakOrderOn(s, before)
    requires forall y | y in t :: y in s
    requires x in s && e in s && Equivalent(x, e, before)
    requires 0 <= k <= |t| && forall m | k <= m < |t| :: before(x, t[m])
    ensures EquivalentTo(t[k..], e, before) == []
  {
    forall y | y in t[k..]
      ensures !Equivalent(y, e, before)
    {
      NotEquivalentAfter(t, x, e, k, y, s, before);
    }
    EquivalentToNone(t[k..], e, before);
  }

  /** The elements equivalent to `e` in `a + [x] + b`: those of `a`, then `x` if it is, then those of `b`. */
  lemma EquivalentToThree<T>(a: seq<T>, x: T, b: seq<T>, e: T, before: (T, T) -> bool)
    ensures EquivalentTo(a + [x] + b, e, before)
         == EquivalentTo(a, e, before) + (if Equivalent(x, e, before) then [x] else []) + EquivalentTo(b, e, before)
  {
    EquivalentToAppend(a + [x], b, e, before);
    EquivalentToAppend(a, [x], e, before);
    assert [x][..0] == [];
  }

  /** An element `x` must precede is not equivalent to anything equivalent to `x`. */
  lemma NotEquivalentAfter<T>(t: seq<T>, x: T, e: T, k: int, y: T, s: seq<T>, before: (T, T) -> bool)
    requires StrictWeakOrderOn(s, before)
    requires forall y | y in t :: y in s
    requires x in s && e in s && Equivalent(x, e, before)
    requires 0 <= k <= |t| && y in t[k..] && forall m | k <= m < |t| :: before(x, t[m])
    ensures !Equivalent(y, e, before)
  {
    var m :| k <= m < |t| && t[m] == y;
    assert before(x, y);
    assert before(x, e) || before(e, y);
  }

  // ---- The three properties of the sorted order ----

  /** The sort only reorders: the result holds the same elements, each as often. */
  lemma {:induction false} SortIsPermutation<T>(s: seq<T>, before: (T, T) -> bool)
    ensures multiset(InsertionSort(s, before)) == multiset(s)
  {
    if s != [] {
      var u := s[..|s| - 1];
      SortIsPermutation(u, before);
      InsertMultiset(InsertionSort(u, before), s[|s| - 1], before);
      assert s == u + [s[|s| - 1]];
    }
  }

  /** With a consistent comparator, the result is in order. */
  lemma {:induction false} SortIsSorted<T>(s: seq<T>, before: (T, T) -> bool)
    requires StrictWeakOrderOn(s, before)
    ensures SortedBy(InsertionSort(s, before), before)
  {
    if s != [] {
      var u := s[..|s| - 1];
      assert StrictWeakOrderOn(u, before) by {
        forall y | y in u ensures y in s { }
      }
      SortIsSorted(u, before);
      SortIsPermutation(u, before);
      forall y | y in InsertionSort(u, before) ensures y in s {
        assert y in multiset(InsertionSort(u, before));
        assert y in u;
      }
      InsertSorted(InsertionSort(u, before), s[|s| - 1], s, before);
    }
  }

  /** With a consistent comparator, equivalent elements keep the order they had: the sort is stable. */
  lemma {:induction false} SortIsStable<T>(s: seq<T>, e: T, before: (T, T) -> bool)
    requires StrictWeakOrderOn(s, before) && e in s
    ensures EquivalentTo(InsertionSort(s, before), e, before) == EquivalentTo(s, e, before)
  {
    if s != [] {
      var u := s[..|s| - 1];
      var x := s[|s| - 1];
      SortIsPermutation(u, before);
      forall y | y in InsertionSort(u, before) ensures y in s {
        assert y in multiset(InsertionSort(u, before));
        assert y in u;
      }
      InsertEquivalentTo(InsertionSort(u, before), x, e, s, before);
      if e in u {
        assert StrictWeakOrderOn(u, before) by {
          forall y | y in u ensures y in s { }
        }
        SortIsStable(u, e, before);
      } else {
        EquivalentToOfSort(u, e, s, before);
      }
    }
  }

  /** When `e` does not occur in `u`, the class of `e` in `u` is the same before and after sorting. */
  lemma EquivalentToOfSort<T>(u: seq<T>, e: T, s: seq<T>, before: (T, T) -> bool)
    requires StrictWeakOrderOn(s, before) && e in s
    requires forall y | y in u :: y in s
    ensures EquivalentTo(InsertionSort(u, before), e, before) == EquivalentTo(u, e, before)
    decreases |u|
  {
    if u != [] {
      var w := u[..|u| - 1];
      SortIsPermutation(w, before);
      forall y | y in InsertionSort(w, before) ensures y in s {
        assert y in multiset(InsertionSort(w, before));
        assert y in w;
      }
      InsertEquivalentTo(InsertionSort(w, before), u[|u| - 1], e, s, before);
      EquivalentToOfSort(w, e, s, before);
    }
  }
}
