/** The meaning of `Array.prototype.sort` with a comparator: a stable
    insertion sort over sequences, what it guarantees (a permutation,
    neighbours in order, stability, full order for a transitive comparator),
    and the in-place sort of an array that computes it. */
module Sorting {
  import opened Seqs

  /** A `compareFn`: negative, zero or positive as its first argument goes
      before, ties with or goes after its second. */
  type Comparator<!T> = (T, T) -> int

  /** Swapping the arguments negates the order. */
  ghost predicate Antisymmetric<T(!new)>(cmp: Comparator<T>) {
    forall x, y :: cmp(x, y) == -cmp(y, x)
  }

  /** "Compares no greater" is transitive among the elements of `s`. */
  ghost predicate TransitiveOn<T>(cmp: Comparator<T>, s: seq<T>) {
    forall x, y, z :: x in s && y in s && z in s && cmp(x, y) <= 0 && cmp(y, z) <= 0 ==> cmp(x, z) <= 0
  }

  /** No element satisfying `p` goes strictly before another one satisfying `p`. */
  ghost predicate TiesWithin<T(!new)>(cmp: Comparator<T>, p: T -> bool) {
    forall x, y :: p(x) && p(y) ==> cmp(x, y) >= 0
  }

  /** Inserts `x` into `s` just after the last element that does not compare
      greater than it, scanning from the back: a stable insertion. */
  function Insert<T>(s: seq<T>, x: T, cmp: Comparator<T>): (r: seq<T>)
    ensures |r| == |s| + 1
  {
    if |s| == 0 then [x]
    else
      var init, last := s[..|s| - 1], s[|s| - 1];
      assert s == init + [last];
      if cmp(x, last) < 0 then Insert(init, x, cmp) + [last]
      else s + [x]
  }

  /** The stable sort `[...s].sort(cmp)`: insertion sort from the front. */
  function StableSort<T>(s: seq<T>, cmp: Comparator<T>): (r: seq<T>)
    ensures |r| == |s|
  {
    if |s| == 0 then []
    else
      var init, last := s[..|s| - 1], s[|s| - 1];
      assert s == init + [last];
      Insert(StableSort(init, cmp), last, cmp)
  }

  /** Every element compares no greater than the next one. */
  ghost predicate AdjacentOrdered<T>(s: seq<T>, cmp: Comparator<T>) {
    forall i :: 0 <= i < |s| - 1 ==> cmp(s[i], s[i + 1]) <= 0
  }

  /** Every element compares no greater than every later one. */
  ghost predicate Ordered<T>(s: seq<T>, cmp: Comparator<T>) {
    forall i, j :: 0 <= i < j < |s| ==> cmp(s[i], s[j]) <= 0
  }

  /** Insertion adds exactly `x`. */
  lemma {:induction false} InsertPermutation<T>(s: seq<T>, x: T, cmp: Comparator<T>)
    ensures multiset(Insert(s, x, cmp)) == multiset(s) + multiset{x}
  {
    if |s| > 0 {
      var init, last := s[..|s| - 1], s[|s| - 1];
      assert s == init + [last];
      if cmp(x, last) < 0 {
        InsertPermutation(init, x, cmp);
      }
    }
  }

  /** The sorted copy is a permutation of the input. */
  lemma {:induction false} StableSortPermutation<T>(s: seq<T>, cmp: Comparator<T>)
    ensures multiset(StableSort(s, cmp)) == multiset(s)
  {
    if |s| > 0 {
      var init, last := s[..|s| - 1], s[|s| - 1];
      assert s == init + [last];
      StableSortPermutation(init, cmp);
      InsertPermutation(StableSort(init, cmp), last, cmp);
    }
  }

  lemma {:induction false} InsertLast<T>(s: seq<T>, x: T, cmp: Comparator<T>)
    ensures var r := Insert(s, x, cmp);
            r[|s|] == x || (s != [] && r[|s|] == s[|s| - 1] && cmp(x, s[|s| - 1]) < 0)
  {
  }

  /** Inserting into an adjacent-ordered sequence keeps it adjacent-ordered. */
  lemma {:induction false} InsertAdjacentOrdered<T(!new)>(s: seq<T>, x: T, cmp: Comparator<T>)
    requires Antisymmetric(cmp)
    requires AdjacentOrdered(s, cmp)
    ensures AdjacentOrdered(Insert(s, x, cmp), cmp)
  {
    if |s| > 0 {
      var init, last := s[..|s| - 1], s[|s| - 1];
      var r := Insert(s, x, cmp);
      if cmp(x, last) < 0 {
        assert AdjacentOrdered(init, cmp) by {
          forall i | 0 <= i < |init| - 1 ensures cmp(init[i], init[i + 1]) <= 0 {
            assert init[i] == s[i] && init[i + 1] == s[i + 1];
          }
        }
        InsertAdjacentOrdered(init, x, cmp);
        var t := Insert(init, x, cmp);
        InsertLast(init, x, cmp);
        assert r == t + [last];
        forall i | 0 <= i < |r| - 1 ensures cmp(r[i], r[i + 1]) <= 0 {
          if i < |t| - 1 {
            assert r[i] == t[i] && r[i + 1] == t[i + 1];
          } else {
            assert r[i] == t[|init|] && r[i + 1] == last;
            if t[|init|] != x {
              assert s[|s| - 2] == init[|init| - 1];
            }
          }
        }
      } else {
        assert cmp(last, x) == -cmp(x, last);
        assert r == s + [x];
      }
    }
  }

  /** The sorted copy is adjacent-ordered for any antisymmetric comparator. */
  lemma {:induction false} StableSortAdjacentOrdered<T(!new)>(s: seq<T>, cmp: Comparator<T>)
    requires Antisymmetric(cmp)
    ensures AdjacentOrdered(StableSort(s, cmp), cmp)
  {
    if |s| > 0 {
      var init := s[..|s| - 1];
      StableSortAdjacentOrdered(init, cmp);
      InsertAdjacentOrdered(StableSort(init, cmp), s[|s| - 1], cmp);
    }
  }

  lemma SwapFiltered<T>(init: seq<T>, t: seq<T>, x: T, last: T, p: T -> bool)
    requires Filter(t, p) == Filter(init, p) + Filter([x], p)
    requires !(p(x) && p(last))
    ensures Filter(t + [last], p) == Filter(init + [last], p) + Filter([x], p)
  {
    var fi, fx, fl := Filter(init, p), Filter([x], p), Filter([last], p);
    assert fx == [] || fl == [] by {
      FilterSingleton(x, p);
      FilterSingleton(last, p);
    }
    assert Filter(t + [last], p) == fi + fx + fl by {
      FilterAppend(t, [last], p);
    }
    assert Filter(init + [last], p) == fi + fl by {
      FilterAppend(init, [last], p);
    }
    ConcatSwap(fi, fx, fl);
  }

  lemma ConcatSwap<T>(a: seq<T>, b: seq<T>, c: seq<T>)
    requires b == [] || c == []
    ensures a + b + c == a + c + b
  {
    if b == [] {
      assert a + b == a && a + c + b == a + c;
    } else {
      assert a + c == a && a + b + c == a + b;
    }
  }

  /** Insertion never moves `x` past an element that ties with it. */
  lemma {:induction false} InsertStable<T(!new)>(s: seq<T>, x: T, cmp: Comparator<T>, p: T -> bool)
    requires TiesWithin(cmp, p)
    ensures Filter(Insert(s, x, cmp), p) == Filter(s, p) + Filter([x], p)
  {
    if |s| == 0 {
      FilterSingleton(x, p);
      assert Insert(s, x, cmp) == [x];
    } else {
      var init, last := s[..|s| - 1], s[|s| - 1];
      assert s == init + [last];
      if cmp(x, last) < 0 {
        InsertStable(init, x, cmp, p);
        assert !(p(x) && p(last));
        SwapFiltered(init, Insert(init, x, cmp), x, last, p);
      } else {
        FilterAppend(s, [x], p);
      }
    }
  }

  /** Stability: the elements satisfying `p`, a class of mutually tying elements,
      appear in the sorted copy in exactly their input order. */
  lemma {:induction false} StableSortStable<T(!new)>(s: seq<T>, cmp: Comparator<T>, p: T -> bool)
    requires TiesWithin(cmp, p)
    ensures Filter(StableSort(s, cmp), p) == Filter(s, p)
  {
    if |s| > 0 {
      var init, last := s[..|s| - 1], s[|s| - 1];
      assert s == init + [last];
      StableSortStable(init, cmp, p);
      InsertStable(StableSort(init, cmp), last, cmp, p);
      FilterAppend(init, [last], p);
    }
  }

  lemma {:induction false} Chain<T>(r: seq<T>, cmp: Comparator<T>, i: nat, j: nat)
    requires AdjacentOrdered(r, cmp) && TransitiveOn(cmp, r)
    requires i < j < |r|
    ensures cmp(r[i], r[j]) <= 0
    decreases j - i
  {
    if j > i + 1 {
      Chain(r, cmp, i, j - 1);
      assert cmp(r[j - 1], r[j]) <= 0;
      assert r[i] in r && r[j - 1] in r && r[j] in r;
    }
  }

  /** With a comparator that is transitive on the input, the sorted copy is
      fully ordered. */
  lemma StableSortOrdered<T(!new)>(s: seq<T>, cmp: Comparator<T>)
    requires Antisymmetric(cmp) && TransitiveOn(cmp, s)
    ensures Ordered(StableSort(s, cmp), cmp)
  {
    var r := StableSort(s, cmp);
    StableSortAdjacentOrdered(s, cmp);
    StableSortPermutation(s, cmp);
    forall x | x in r ensures x in s {
      assert x in multiset(r);
    }
    assert TransitiveOn(cmp, r);
    forall i, j | 0 <= i < j < |r| ensures cmp(r[i], r[j]) <= 0 {
      Chain(r, cmp, i, j);
    }
  }

  /** Where the scan stops: at the front, or after an element `x` does not go
      before, `x` is placed right there. */
  lemma InsertStop<T>(s: seq<T>, x: T, cmp: Comparator<T>, j: nat)
    requires j <= |s| && (j == 0 || cmp(x, s[j - 1]) >= 0)
    ensures Insert(s[..j], x, cmp) + s[j..] == s[..j] + [x] + s[j..]
  {
    if j > 0 {
      assert s[..j][..j - 1] == s[..j - 1];
      assert s[..j] == s[..j - 1] + [s[j - 1]];
    }
  }

  /** Where `Insert` puts `x`: after the elements it does not go before,
      ahead of the trailing run of elements it goes strictly before. */
  lemma {:induction false} InsertAt<T>(sorted: seq<T>, x: T, cmp: Comparator<T>, j: nat)
    requires j <= |sorted|
    requires j == 0 || cmp(x, sorted[j - 1]) >= 0
    requires forall k :: j <= k < |sorted| ==> cmp(x, sorted[k]) < 0
    ensures Insert(sorted, x, cmp) == sorted[..j] + [x] + sorted[j..]
    decreases |sorted|
  {
    if j == |sorted| {
      InsertStop(sorted, x, cmp, j);
      assert sorted[..j] == sorted && sorted[j..] == [];
    } else {
      var init, last := sorted[..|sorted| - 1], sorted[|sorted| - 1];
      assert Insert(sorted, x, cmp) == Insert(init, x, cmp) + [last] by {
        assert sorted == init + [last];
        assert cmp(x, last) < 0;
      }
      assert j == 0 || cmp(x, init[j - 1]) >= 0 by {
        assert j == 0 || init[j - 1] == sorted[j - 1];
      }
      assert forall k :: j <= k < |init| ==> cmp(x, init[k]) < 0 by {
        forall k | j <= k < |init|
          ensures cmp(x, init[k]) < 0
        {
          assert init[k] == sorted[k];
        }
      }
      InsertAt(init, x, cmp, j);
      assert init[..j] + [x] + init[j..] + [last] == sorted[..j] + [x] + sorted[j..] by {
        assert init[..j] == sorted[..j];
        assert init[j..] + [last] == sorted[j..];
      }
    }
  }

  /** The scan of one insertion step: shifts the elements of the sorted prefix
      `a[..i]` that `x` goes before one place right and returns the slot
      left free, where the stable insertion puts `x`. */
  method ShiftGreater<T>(a: array<T>, i: nat, x: T, cmp: Comparator<T>) returns (j: nat)
    requires i < a.Length
    modifies a
    ensures j <= i
    ensures forall k :: 0 <= k < j ==> a[k] == old(a[k])
    ensures forall k :: j < k <= i ==> a[k] == old(a[k - 1])
    ensures forall k :: i < k < a.Length ==> a[k] == old(a[k])
    ensures Insert(old(a[..i]), x, cmp) == old(a[..i])[..j] + [x] + old(a[..i])[j..]
  {
    ghost var sorted := a[..i];
    j := i;
    while j > 0 && cmp(x, a[j - 1]) < 0
      invariant 0 <= j <= i
      invariant forall k :: 0 <= k < j ==> a[k] == sorted[k]
      invariant forall k :: j < k <= i ==> a[k] == sorted[k - 1]
      invariant forall k :: i < k < a.Length ==> a[k] == old(a[k])
      invariant forall k :: j <= k < i ==> cmp(x, sorted[k]) < 0
    {
      a[j] := a[j - 1];
      j := j - 1;
    }
    assert j == 0 || a[j - 1] == sorted[j - 1];
    InsertAt(sorted, x, cmp, j);
  }

  /** One step of the in-place sort: moves `a[i]` left into the sorted
      prefix `a[..i]`, shifting the greater elements one place right. */
  method InsertInPlace<T>(a: array<T>, i: nat, cmp: Comparator<T>)
    requires i < a.Length
    modifies a
    ensures a[..i + 1] == Insert(old(a[..i]), old(a[i]), cmp)
    ensures a[i + 1..] == old(a[i + 1..])
  {
    var x := a[i];
    ghost var sorted := a[..i];
    var j := ShiftGreater(a, i, x, cmp);
    a[j] := x;
    ghost var r := sorted[..j] + [x] + sorted[j..];
    assert forall k :: 0 <= k <= i ==> a[k] == r[k];
    assert a[..i + 1] == r;
  }

  /** Sorts the array in place, as `Array.prototype.sort` does on the copy. */
  method SortInPlace<T>(a: array<T>, cmp: Comparator<T>)
    modifies a
    ensures a[..] == StableSort(old(a[..]), cmp)
  {
    ghost var orig := a[..];
    var i := 0;
    while i < a.Length
      invariant 0 <= i <= a.Length
      invariant a[..i] == StableSort(orig[..i], cmp)
      invariant a[i..] == orig[i..]
    {
      assert orig[..i + 1][..i] == orig[..i];
      assert StableSort(orig[..i + 1], cmp) == Insert(StableSort(orig[..i], cmp), orig[i], cmp);
      assert a[i] == orig[i] && a[i + 1..] == orig[i + 1..] by {
        assert a[i..][0] == orig[i..][0];
        assert a[i..][1..] == orig[i..][1..];
      }
      InsertInPlace(a, i, cmp);
      i := i + 1;
    }
    assert orig[..a.Length] == orig;
  }
}
