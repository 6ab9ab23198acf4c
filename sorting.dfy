/** Stable sorting and filtering of lists, for any strict weak order.

    Rust's `slice::sort_by` and `slice::sort_by_key` are stable sorts:
    entries that compare equal keep their relative order. `SortBy` is the
    stable insertion sort, and any two stable sorts under the same order
    produce the same list, so `SortBy` is what the standard library returns.
    `Vec::retain` keeps, in order, the elements a predicate accepts; that is
    `Filter`. The in-place methods are the algorithms on an array, each proved
    to produce its specification function's result. */
module Sorting {

  /** `less` is irreflexive, transitive, and its complement is transitive:
      the orders a comparison-based sort may be given. */
  ghost predicate StrictWeakOrder<T(!new)>(less: (T, T) -> bool) {
    && (forall a :: !less(a, a))
    && (forall a, b, c :: less(a, b) && less(b, c) ==> less(a, c))
    && (forall a, b, c :: !less(a, b) && !less(b, c) ==> !less(a, c))
  }

  /** No element is followed by one that comes strictly before it. */
  ghost predicate Sorted<T>(less: (T, T) -> bool, s: seq<T>) {
    forall i, j :: 0 <= i < j < |s| ==> !less(s[j], s[i])
  }

  /** Inserts `x` into `s` after every element that does not come strictly
      after it, so that equivalent elements keep their order. */
  function Insert<T>(less: (T, T) -> bool, s: seq<T>, x: T): (r: seq<T>)
    decreases |s|
  {
    if |s| == 0 then [x]
    else if less(x, s[|s| - 1]) then Insert(less, s[..|s| - 1], x) + [s[|s| - 1]]
    else s + [x]
  }

  /** The stable sort of `s` under `less`. */
  function SortBy<T>(less: (T, T) -> bool, s: seq<T>): (r: seq<T>)
    decreases |s|
  {
    if |s| == 0 then [] else Insert(less, SortBy(less, s[..|s| - 1]), s[|s| - 1])
  }

  lemma {:induction false} InsertPermutes<T>(less: (T, T) -> bool, s: seq<T>, x: T)
    ensures multiset(Insert(less, s, x)) == multiset(s) + multiset{x}
    ensures |Insert(less, s, x)| == |s| + 1
    decreases |s|
  {
    if |s| > 0 && less(x, s[|s| - 1]) {
      InsertPermutes(less, s[..|s| - 1], x);
      assert s == s[..|s| - 1] + [s[|s| - 1]];
    }
  }

  lemma {:induction false} InsertSorted<T(!new)>(less: (T, T) -> bool, s: seq<T>, x: T)
    requires StrictWeakOrder(less)
    requires Sorted(less, s)
    ensures Sorted(less, Insert(less, s, x))
    decreases |s|
  {
    if |s| > 0 {
      var last, init := s[|s| - 1], s[..|s| - 1];
      if less(x, last) {
        InsertSorted(less, init, x);
        InsertPermutes(less, init, x);
        var t := Insert(less, init, x);
        forall i | 0 <= i < |t| ensures !less(last, t[i]) {
          assert t[i] in multiset(t);
          if t[i] != x {
            assert t[i] in multiset(init);
            var k :| 0 <= k < |init| && init[k] == t[i];
            assert s[k] == t[i];
          }
        }
        var u := t + [last];
        forall i, j | 0 <= i < j < |u| ensures !less(u[j], u[i]) {
          if j < |t| {
            assert u[i] == t[i] && u[j] == t[j];
          }
        }
      } else {
        var u := s + [x];
        forall i, j | 0 <= i < j < |u| ensures !less(u[j], u[i]) {
          if j == |s| && i < |s| - 1 {
            assert !less(last, s[i]);
          }
        }
      }
    }
  }

  /** The sort yields a permutation of its input. */
  lemma {:induction false} SortByPermutes<T>(less: (T, T) -> bool, s: seq<T>)
    ensures multiset(SortBy(less, s)) == multiset(s)
    ensures |SortBy(less, s)| == |s|
    decreases |s|
  {
    if |s| > 0 {
      var init, last := s[..|s| - 1], s[|s| - 1];
      var t := SortBy(less, init);
      assert SortBy(less, s) == Insert(less, t, last);
      SortByPermutes(less, init);
      InsertPermutes(less, t, last);
      assert s == init + [last];
      assert multiset(s) == multiset(init) + multiset{last};
    }
  }

  /** The sort yields a sorted list. */
  lemma {:induction false} SortBySorted<T(!new)>(less: (T, T) -> bool, s: seq<T>)
    requires StrictWeakOrder(less)
    ensures Sorted(less, SortBy(less, s))
    decreases |s|
  {
    if |s| > 0 {
      SortBySorted(less, s[..|s| - 1]);
      InsertSorted(less, SortBy(less, s[..|s| - 1]), s[|s| - 1]);
    }
  }

  /** The elements of `s` that `keep` accepts, in their order in `s`. */
  function Filter<T>(keep: T -> bool, s: seq<T>): (r: seq<T>)
    decreases |s|
  {
    if |s| == 0 then []
    else Filter(keep, s[..|s| - 1]) + (if keep(s[|s| - 1]) then [s[|s| - 1]] else [])
  }

  lemma {:induction false} FilterAppend<T>(keep: T -> bool, a: seq<T>, b: seq<T>)
    ensures Filter(keep, a + b) == Filter(keep, a) + Filter(keep, b)
    decreases |b|
  {
    if |b| > 0 {
      var b' := b[..|b| - 1];
      assert (a + b)[..|a + b| - 1] == a + b';
      FilterAppend(keep, a, b');
    } else {
      assert a + b == a;
    }
  }

  /** An element survives the filter exactly when it is in the list and
      accepted. */
  lemma {:induction false} FilterMembers<T>(keep: T -> bool, s: seq<T>)
    ensures forall e :: e in Filter(keep, s) <==> e in s && keep(e)
    ensures |Filter(keep, s)| <= |s|
    decreases |s|
  {
    if |s| > 0 {
      FilterMembers(keep, s[..|s| - 1]);
      assert s == s[..|s| - 1] + [s[|s| - 1]];
    }
  }

  /** Filtering with a predicate that accepts everything changes nothing. */
  lemma {:induction false} FilterAll<T>(keep: T -> bool, s: seq<T>)
    requires forall i :: 0 <= i < |s| ==> keep(s[i])
    ensures Filter(keep, s) == s
    decreases |s|
  {
    if |s| > 0 {
      FilterAll(keep, s[..|s| - 1]);
    }
  }

  /** A filter that accepts no element of `s` is empty. */
  lemma {:induction false} FilterNone<T>(keep: T -> bool, s: seq<T>)
    requires forall i :: 0 <= i < |s| ==> !keep(s[i])
    ensures Filter(keep, s) == []
    decreases |s|
  {
    if |s| > 0 {
      FilterNone(keep, s[..|s| - 1]);
    }
  }

  /** When `k` is the only accepted position, the filter is that element. */
  lemma {:induction false} FilterOnly<T>(keep: T -> bool, s: seq<T>, k: nat)
    requires k < |s| && keep(s[k])
    requires forall m :: 0 <= m < |s| && keep(s[m]) ==> m == k
    ensures Filter(keep, s) == [s[k]]
    decreases |s|
  {
    var init := s[..|s| - 1];
    if k == |s| - 1 {
      forall i | 0 <= i < |init| ensures !keep(init[i]) {
        assert init[i] == s[i];
      }
      FilterNone(keep, init);
    } else {
      forall m | 0 <= m < |init| && keep(init[m]) ensures m == k {
        assert init[m] == s[m];
      }
      FilterOnly(keep, init, k);
      assert init[k] == s[k];
    }
  }

  /** Two accepted positions make a filter of at least two elements. */
  lemma FilterTwo<T>(keep: T -> bool, s: seq<T>, i: nat, j: nat)
    requires i < j < |s| && keep(s[i]) && keep(s[j])
    ensures |Filter(keep, s)| >= 2
  {
    assert s == s[..j] + s[j..];
    FilterAppend(keep, s[..j], s[j..]);
    FilterMembers(keep, s[..j]);
    FilterMembers(keep, s[j..]);
    assert s[..j][i] == s[i] && s[j..][0] == s[j];
    assert s[i] in Filter(keep, s[..j]);
    assert s[j] in Filter(keep, s[j..]);
  }

  /** An element the filter rejects drops out from between its neighbours. */
  lemma FilterSkip<T>(keep: T -> bool, a: seq<T>, x: T, b: seq<T>)
    requires !keep(x)
    ensures Filter(keep, a + [x] + b) == Filter(keep, a) + Filter(keep, b)
  {
    FilterAppend(keep, a + [x], b);
    assert (a + [x])[..|a|] == a;
  }

  /** Replacing a rejected element by another rejected one does not change
      the filtered sequence. */
  lemma FilterReplace<T>(keep: T -> bool, s: seq<T>, i: nat, y: T)
    requires i < |s| && !keep(s[i]) && !keep(y)
    ensures Filter(keep, s[i := y]) == Filter(keep, s)
  {
    var before, after := s[..i], s[i + 1..];
    assert s == before + [s[i]] + after;
    assert s[i := y] == before + [y] + after;
    FilterSkip(keep, before, s[i], after);
    FilterSkip(keep, before, y, after);
  }

  /** Appending a rejected element does not change the filtered sequence. */
  lemma FilterSnocRejected<T>(keep: T -> bool, s: seq<T>, y: T)
    requires !keep(y)
    ensures Filter(keep, s + [y]) == Filter(keep, s)
  {
    assert (s + [y])[..|s|] == s;
  }

  /** Filtering a prefix gives a prefix of the filtered sequence. */
  lemma FilterPrefix<T>(keep: T -> bool, s: seq<T>, n: nat)
    requires n <= |s|
    ensures Filter(keep, s[..n]) <= Filter(keep, s)
  {
    assert s == s[..n] + s[n..];
    FilterAppend(keep, s[..n], s[n..]);
  }

  /** Filtering one more element of `s`. */
  lemma FilterSnoc<T>(keep: T -> bool, s: seq<T>, r: nat)
    requires r < |s|
    ensures Filter(keep, s[..r + 1]) == Filter(keep, s[..r]) + (if keep(s[r]) then [s[r]] else [])
  {
    assert s[..r + 1][..r] == s[..r];
  }

  /** Two sequences of one length that agree at every index are equal. */
  lemma SameElements<T>(p: seq<T>, q: seq<T>)
    requires |p| == |q|
    requires forall k :: 0 <= k < |p| ==> p[k] == q[k]
    ensures p == q
  {
  }

  /** Stability of one insertion: among elements that are pairwise
      equivalent, order is kept and the inserted one comes last. */
  lemma {:induction false} InsertStable<T>(less: (T, T) -> bool, keep: T -> bool, s: seq<T>, x: T)
    requires forall a, b :: keep(a) && keep(b) ==> !less(a, b)
    ensures Filter(keep, Insert(less, s, x)) == Filter(keep, s) + Filter(keep, [x])
    decreases |s|
  {
    if |s| == 0 {
      assert [x] == [] + [x];
    } else {
      var last, init := s[|s| - 1], s[..|s| - 1];
      assert s == init + [last];
      if less(x, last) {
        InsertStable(less, keep, init, x);
        FilterAppend(keep, Insert(less, init, x), [last]);
        FilterAppend(keep, init, [last]);
        assert [x][..0] == [] && [last][..0] == [];
        var fx, fl := Filter(keep, [x]), Filter(keep, [last]);
        assert fx == [] || fl == [];
        assert Insert(less, s, x) == Insert(less, init, x) + [last];
        assert Filter(keep, Insert(less, s, x)) == Filter(keep, init) + fx + fl;
        assert Filter(keep, s) == Filter(keep, init) + fl;
        assert fx + fl == fl + fx;
      } else {
        FilterAppend(keep, s, [x]);
      }
    }
  }

  /** The sort is stable: elements that are pairwise equivalent appear in the
      sorted list in the order they had in the input. */
  lemma {:induction false} SortByStable<T>(less: (T, T) -> bool, keep: T -> bool, s: seq<T>)
    requires forall a, b :: keep(a) && keep(b) ==> !less(a, b)
    ensures Filter(keep, SortBy(less, s)) == Filter(keep, s)
    decreases |s|
  {
    if |s| > 0 {
      var init, last := s[..|s| - 1], s[|s| - 1];
      var sortedInit := SortBy(less, init);
      assert SortBy(less, s) == Insert(less, sortedInit, last);
      SortByStable(less, keep, init);
      InsertStable(less, keep, sortedInit, last);
      assert Filter(keep, SortBy(less, s)) == Filter(keep, init) + Filter(keep, [last]);
      FilterAppend(keep, init, [last]);
      assert s == init + [last];
    }
  }

  /** Where insertion from the right puts `x`: after `t[..j]` when every
      element of `t[j..]` comes strictly after `x` and `t[j - 1]` does not. */
  lemma {:induction false} InsertAt<T>(less: (T, T) -> bool, t: seq<T>, j: nat, x: T)
    requires j <= |t|
    requires j == 0 || !less(x, t[j - 1])
    requires forall k :: j <= k < |t| ==> less(x, t[k])
    ensures Insert(less, t, x) == t[..j] + [x] + t[j..]
    decreases |t|
  {
    if j == |t| {
      assert t[..j] == t && t[j..] == [];
    } else {
      var init, last := t[..|t| - 1], t[|t| - 1];
      assert less(x, last);
      assert Insert(less, t, x) == Insert(less, init, x) + [last];
      InsertAt(less, init, j, x);
      assert init[..j] == t[..j];
      assert init[j..] + [last] == t[j..];
      calc {
        Insert(less, t, x);
        init[..j] + [x] + init[j..] + [last];
        t[..j] + [x] + (init[j..] + [last]);
      }
    }
  }

  /** The array after the last move of an insertion pass: `x` sits between
      `t[..j]` and `t[j..]`. */
  lemma InsertPlaced<T>(t: seq<T>, j: nat, x: T, out: seq<T>)
    requires j <= |t| && |out| == |t| + 1
    requires forall k :: 0 <= k < j ==> out[k] == t[k]
    requires out[j] == x
    requires forall k :: j < k < |out| ==> out[k] == t[k - 1]
    ensures out == t[..j] + [x] + t[j..]
  {
    var r := t[..j] + [x] + t[j..];
    forall k | 0 <= k < |out| ensures out[k] == r[k] {
      if k < j {
        assert r[k] == t[k];
      } else if k > j {
        assert r[k] == t[k - 1];
      }
    }
  }

  /** One pass of insertion sort: moves `a[i]` left past the elements of
      `a[..i]` that come strictly after it. */
  method InsertInPlace<T>(less: (T, T) -> bool, a: array<T>, i: nat)
    requires i < a.Length
    modifies a
    ensures a[..i + 1] == Insert(less, old(a[..i]), old(a[i]))
    ensures forall k :: i < k < a.Length ==> a[k] == old(a[k])
  {
    var x := a[i];
    ghost var sorted := a[..i];
    var j := i;
    while j > 0 && less(x, a[j - 1])
      invariant 0 <= j <= i
      invariant forall k :: 0 <= k < j ==> a[k] == sorted[k]
      invariant forall k :: j < k <= i ==> a[k] == sorted[k - 1]
      invariant forall k :: i < k < a.Length ==> a[k] == old(a[k])
      invariant forall k :: j <= k < i ==> less(x, sorted[k])
    {
      a[j] := a[j - 1];
      j := j - 1;
    }
    a[j] := x;
    InsertPlaced(sorted, j, x, a[..i + 1]);
    InsertAt(less, sorted, j, x);
  }

  /** Sorts the first `n` cells of `a` in place, stably under `less`, leaving
      the rest alone. */
  method SortInPlace<T>(less: (T, T) -> bool, a: array<T>, n: nat)
    requires n <= a.Length
    modifies a
    ensures a[..n] == SortBy(less, old(a[..n]))
    ensures forall k :: n <= k < a.Length ==> a[k] == old(a[k])
  {
    ghost var s := a[..n];
    var i := 0;
    while i < n
      invariant 0 <= i <= n
      invariant a[..i] == SortBy(less, s[..i])
      invariant forall k :: i <= k < n ==> a[k] == s[k]
      invariant forall k :: n <= k < a.Length ==> a[k] == old(a[k])
    {
      assert a[i] == s[i];
      InsertInPlace(less, a, i);
      assert s[..i + 1][..i] == s[..i];
      i := i + 1;
    }
    assert s[..n] == s;
  }

  /** `Vec::retain` on the first `n` cells of `a`: moves the accepted elements
      to the front, in order, and returns how many there are. */
  method RetainInPlace<T>(keep: T -> bool, a: array<T>, n: nat) returns (w: nat)
    requires n <= a.Length
    modifies a
    ensures w <= n
    ensures a[..w] == Filter(keep, old(a[..n]))
  {
    ghost var s := a[..n];
    ghost var kept: seq<T> := [];
    w := 0;
    var r := 0;
    while r < n
      invariant w <= r <= n
      invariant kept == Filter(keep, s[..r]) && |kept| == w
      invariant forall k :: 0 <= k < w ==> a[k] == kept[k]
      invariant forall k :: r <= k < n ==> a[k] == s[k]
    {
      var e := a[r];
      FilterSnoc(keep, s, r);
      if keep(e) {
        a[w] := e;
        kept := kept + [e];
        w := w + 1;
      }
      r := r + 1;
    }
    assert s[..n] == s;
    SameElements(a[..w], kept);
  }
}
